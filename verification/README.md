# HowLongToBeat parser — a Dafny model of its core

The parser walks HowLongToBeat game pages by numeric id. It turns each page
into one CSV record: id, name, content type, release date and the seven
completion-time categories, each with an average in hours and a polled count.
A second script cleans the resulting dataset and splits it by content type.

This project models the logic of both scripts as pure Dafny functions and
proves properties about it:

| module | file | what it covers |
|---|---|---|
| `Wrappers` | wrappers.dfy | `Option` (Python's `None`), `Result` (a raised `ValueError`), first match in a sequence |
| `Text` | text.dfy | the Python string operations used: `strip`, `lower`, `replace`, `split`, `" ".join(s.split())`, `int()`, `str()`, zero padding |
| `Labels` | labels.dfy | `norm_time_label`, `to_int`, `detect_content_type`, `extract_id_from_url`, the time keys |
| `Duration` | duration.dfy | `parse_hours`: every tier of the duration grammar, ranges and minute rounding |
| `Times` | times.dfy | `ensure_time_keys`, `parse_times_from_tables`, `parse_times_from_page` and the choice between them |
| `Release` | release.dfy | `parse_release_info`, `parse_release_date_legacy`, `merge_release_info` |
| `Game` | game.dfy | `parse_name_from_page`, `parse_hltb_game_from_html` |
| `Crawl` | crawl.dfy | the producer's id walk, the consumer's bookkeeping, `read_existing_ids`, `get_resume_start`, the start/end arithmetic |
| `Dataset` | dataset.dfy | `normalize_type`, `filter_dataset`, `split_exports` |

Modelling choices:

- **Durations are exact hundredths of an hour.** `parse_hours` returns a
  float rounded to two decimals. The model returns a `nat` number of
  hundredths, so "43½ Hours" is 4350. Minutes are rounded to the nearest
  hundredth: `RoundMinutes(m) = (10m + 3) / 6`. This rounding never ties.
- **Regular expressions are hand-written matchers.** Each `re.match` tier of
  `parse_hours` is a small function over the normalised text. The greedy
  reading equals Python's backtracking one, because what follows a `\d+`
  never starts with a digit and what follows a `\s*` never starts with a
  space. The alternation `(mins?|minutes?)` is tried alternative by
  alternative, as Python does, not read greedily (`Duration.MinuteWord`). The release-date searches are
  inputs instead: each summary text carries the first day, month and year
  match the three patterns find in it (`Release.Summary`).
- **HTML and JSON are inputs.** The page is given as what BeautifulSoup
  would have extracted: the header text, the `ld+json` scripts as parsed
  JSON, the time tables, the stats list and the summary texts (`Game.Page`).
- **The crawl is a sequential fold.** The producer's output is
  `Crawl.Produce` over the fetch results, followed by the end-of-stream
  marker. The consumer is `Crawl.Consume`, a fold of `Crawl.Step` over
  those items. `Crawl.Run` composes the two.
- **Character classes.** `\s` and `strip()` use Python's `str.isspace`
  set. `\d` is ASCII digits. `lower()` folds ASCII and Latin-1 capitals.
  `\b` is taken against a Latin-1 `\w` (`Text.IsWordChar`).

Where the code and its own help text disagree, the model follows the code:

- **The miss streak stops a bounded crawl too.** The command-line help
  describes the automatic stop, and the miss threshold that triggers it, as
  part of the unbounded `"*"` mode (main.py:611 and main.py:617). The
  consumer, however, sets the stop flag when the streak of pages without
  data reaches the threshold, whether or not an end id was given
  (main.py:489-491). `Crawl.Step` does the same.

Observations the proofs make explicit:

- Only a missing or empty name means "no record". A page whose time
  statistics are all absent still gives a record, with every time `None`
  (main.py:358-360, `Game.ParseGame`).
- A range needs a unit on both sides. "10 - 12 Hours" has a unitless left
  side, so the range step fails. The fallback tiers then read "10 -",
  which has no unit either, so the result is `None`
  (`Duration.RangeNeedsUnit`).
- When the tables give no average, the stats list is read instead. That
  choice discards the polled counts the tables did find
  (`Times.SelectTimesRule`).
- A page flagged both DLC and multiplayer gets the joined type
  "dlc/expansion; multiplayer focused". `normalize_type` keeps it as it is,
  so such a row lands in none of the three exports (`Dataset.JoinedTypeIsOther`).
- On well-formed summaries the legacy release date never changes the
  primary result. Both come from the same first day-precision match
  (`Release.MergeLegacyUnchanged`).
- A crawl started by hand at an id the dataset already covers still
  writes no duplicate rows. The consumer skips every id it knows, whatever
  the start (`Crawl.Run`). A resumed crawl starts past every known id, so
  it skips nothing it finds (`Crawl.RunResumed`).

## Model

| member | source | states |
|---|---|---|
| Labels.NormTimeLabel | main.py:66-84 | A label names a time key exactly when its stripped, lower-cased spelling is one of the fourteen known spellings, and then it names the key that spelling maps to |
| Labels.NormTimeLabelInsensitive | main.py:67 | Lower-casing or stripping a label never changes the key it names |
| Labels.NormTimeLabelPadded | main.py:66-84 | Any capitalisation of a known spelling, padded with whitespace on either side, names that spelling's key |
| Labels.EveryKeyNamed | main.py:68-83 | Each of the seven time keys has at least one spelling that names it |
| Labels.ToInt | main.py:137-146 | A count is found exactly when the text contains a digit |
| Labels.ToIntGroup | main.py:140-144 | The count is the value of the first digit group, commas ignored, whatever non-digit text precedes or follows it |
| Labels.ToIntNatToString | main.py:137-146 | Reading back a number written in decimal between non-digit text gives that number |
| Labels.DetectContentType | main.py:260-269 | The content type is always one of "game", "dlc/expansion", "multiplayer focused" or the two flags joined by "; " |
| Labels.DetectContentTypeFlags | main.py:260-269 | The type is "game" iff no summary raises a flag; it includes the DLC flag iff some summary with a note mentions DLC; likewise for multiplayer |
| Labels.DistinctTypeNames | main.py:269 | The four possible content types are pairwise distinct, and the joined one is the sorted flags joined by "; " |
| Labels.ExtractIdFromUrl | main.py:157-161 | An id is extracted only from an address containing "/game/" |
| Labels.ExtractIdOf | main.py:157-161 | An address ending in "/game/" and digits (with at most a final newline, as `$` allows) yields the value of those digits |
| Labels.ExtractIdShape | main.py:157-161 | Conversely, an address yields an id only if it is a prefix ending in "/game/", a non-empty digit run and at most a final newline, and the id is the value of that digit run |
| Labels.GameUrlId | main.py:157-161 | The id extracted from the producer's address for id n is n |
| Text.StripPieces | main.py:90 | The text is its stripped form with only whitespace cut off before and after it |
| Text.Strip | main.py:90 | The stripped text neither starts nor ends with whitespace |
| Text.StripPadded | main.py:90 | Stripping removes exactly the whitespace padding around a word |
| Text.StripIdempotent | main.py:67 | Stripping twice is stripping once |
| Text.LowerIdempotent | main.py:67 | Lower-casing twice is lower-casing once |
| Text.LowerStrip | main.py:90 | Lower-casing and stripping commute |
| Text.ReplaceStrip | main.py:90 | Replacing a whitespace character by another whitespace character commutes with stripping |
| Text.Split | main.py:344 | The parts of a split contain no separator, and joining them with the separator gives back the text |
| Text.SplitJoin | main.py:344 | Splitting separator-free parts joined by the separator gives back the parts |
| Text.CollapseSpaces | filter.py:29 | Collapsing whitespace yields single-spaced text: no leading, trailing or doubled blanks, and no other whitespace |
| Text.CollapseIdempotent | filter.py:29 | Collapsing whitespace twice is collapsing once |
| Text.SingleSpacedCollapse | filter.py:29 | Collapsing whitespace leaves single-spaced text unchanged |
| Text.WordsOfJoin | filter.py:29 | Splitting on whitespace undoes joining non-empty, space-free words by single blanks |
| Text.NatToString | main.py:377 | The decimal spelling of n is a non-empty string of digits whose value is n, with no leading zero unless n is 0 |
| Text.ZeroPad | main.py:287-291 | Zero padding keeps the value and yields exactly the width, or the plain spelling when that is longer |
| Text.ParseIntNatToString | main.py:535 | Parsing the decimal spelling of n gives n back |
| Text.ParseIntUnderscore | main.py:557 | An underscore between two digit runs is skipped, as `int()` allows: "1_000" parses to 1000 |
| Duration.ParseHours | main.py:87-134 | Every parsed duration is non-negative, and the empty text parses to none |
| Duration.ParseHoursMissing | main.py:88-92 | Text that strips to nothing, "-" or "--" has no duration |
| Duration.ParseHoursInsensitive | main.py:90 | The duration of a text does not depend on its capitalisation or surrounding whitespace |
| Duration.DashFree | main.py:94-134 | A text without any dash is read by the single-value tiers alone |
| Duration.SingleValueByLead | main.py:102-134 | A text not starting with a digit can only be "½ hour"; a text starting with one is read by the numbered tiers |
| Duration.TiersNeedUnit | main.py:102-134 | A number followed by neither "½", "h" nor "m" is no duration |
| Duration.RoundMinutesNearest | main.py:113 | Minutes become hundredths of an hour to the nearest hundredth, within a third of a hundredth |
| Duration.RangeAverage | main.py:99 | A range's value is the mean of its ends to the nearest hundredth, exact when the sum is even |
| Duration.RangeMean | main.py:94-100 | A text with one dash, whichever of "-", "–" and "—" it is, whose two sides both parse has the mean of the two sides as its value |
| Duration.RangeFallback | main.py:94-101 | When a side of a one-dash text (any of the three dashes, sides possibly empty) does not parse, the text is read by the single-value tiers |
| Duration.HalfHoursRoundTrip | main.py:102-105 | "n½ Hours" parses to n and a half hours |
| Duration.BareHalfHour | main.py:107-108 | "½ Hour" parses to half an hour |
| Duration.BareHalfWords | main.py:107-108 | "½", any run of spaces and one of "h", "hs", "hour", "hours", in any capitalisation, parses to half an hour |
| Duration.HoursMinutesRoundTrip | main.py:110-114 | "h h m m" spelled "Hh Mm" parses to h hours plus m minutes, rounded to hundredths |
| Duration.ShortHoursRoundTrip | main.py:116-118 | "nh" parses to n hours |
| Duration.ShortMinutesRoundTrip | main.py:120-123 | "nm" parses to n minutes, rounded to hundredths of an hour |
| Duration.MinutesRoundTrip | main.py:125-128 | "n Mins" parses to n minutes, rounded to hundredths of an hour |
| Duration.MinutesWordRoundTrip | main.py:125-128 | "n Minutes" parses to n minutes, rounded to hundredths of an hour |
| Duration.HoursRoundTrip | main.py:130-132 | "n Hours" parses to n hours |
| Duration.LowerHoursRoundTrip | main.py:130-132 | "n hours" parses to n hours |
| Duration.RangeRoundTrip | main.py:94-100 | "a Hours - b Hours" parses to the mean of a and b hours |
| Duration.RangeNeedsUnit | main.py:94-134 | "a - b Hours" parses to none: the unitless left side defeats the range and every single-value tier |
| Duration.NumberAlone | main.py:102-134 | A bare number without a unit is no duration |
| Times.EnsureTimeKeys | main.py:149-152 | The completed record has exactly the fourteen time slots, keeps every value already present and sets every added slot to none |
| Times.EnsureTimeKeysIdempotent | main.py:149-152 | Completing a completed record changes nothing |
| Times.AvgValueIsParseHours | main.py:214 | The table's own check for "-" and "--" agrees with the duration parser, so an average cell is just parsed as a duration |
| Times.ParseRow | main.py:203-215 | A table row counts exactly when it has three cells and its label names a time key; then it carries that key, the first cell after the label read as the poll count and the next one read by the duration grammar as the average |
| Times.Apply | main.py:214-226 | A row writes only its own key's slots (and the single-player slots in the single-player table), and never replaces a value by none |
| Times.ApplyWrites | main.py:217-226 | A found average or count overwrites its slot; in the single-player table the main-story row also fills the single-player slots with the same values |
| Times.ReadTables | main.py:184-228 | The tables' reading always has all fourteen slots |
| Times.ReadTablesLastWrite | main.py:184-228 | Each slot holds the last value any row of any table wrote to it, or none |
| Times.ParseItem | main.py:238-246 | A stats-list item counts exactly when it has a heading and a value and the heading names a time key; then it carries that key and the duration the value heading spells |
| Times.ReadItemsLastExtra | main.py:248-249 | Single-player, co-op and versus items are kept aside, and the last one of each key wins |
| Times.ReadListValues | main.py:231-257 | Each average read from the stats list is the last item's value for its key; a missing main story is filled from single-player |
| Times.Backfill | main.py:253-254 | Only the main-story average changes, and only when it is none and a single-player value was set aside |
| Times.Overlay | main.py:256 | Set-aside values replace the averages of their keys and nothing else |
| Times.ReadList | main.py:231-257 | Without a stats list the result has only the seven averages, all none; with one, all fourteen slots with every polled count none |
| Times.SelectTimes | main.py:364-367 | The chosen time record always has exactly the fourteen slots |
| Times.SelectTimesRule | main.py:364-367 | The tables' reading is kept when it has any average; otherwise the stats list's reading is used, and all polled counts are then none |
| Release.MonthNumber | main.py:43-47 | Month names are recognised in any capitalisation, and a recognised month is between 1 and 12 |
| Release.MonthsInOrder | main.py:43-47 | The table numbers the twelve month names in calendar order, one number per name |
| Release.MonthNumberOneToOne | main.py:43-47 | Two names with the same month number are the same name up to capitalisation |
| Release.MonthNumberOnto | main.py:43-47 | Every month 1 to 12 is the number of its calendar name |
| Release.YearText | main.py:287-291 | A year is written as four digits with its value |
| Release.TwoDigits | main.py:287-291 | A month or day is written as two digits with its value |
| Release.ParseReleaseInfo | main.py:272-326 | The release information is always self-consistent: the precision matches which parts are present, and the date is the parts joined by "-" |
| Release.ReleaseTiers | main.py:279-326 | The precision is "day" iff some summary has a day match with a known month, "month" iff not and some has a month match, "year" iff neither and some has a year, none otherwise |
| Release.ReleaseFirstDay | main.py:279-292 | With a day-precision match, the result is the first such match's date |
| Release.ReleaseFirstMonth | main.py:294-306 | Without a day match, the result is the first month-precision match's date |
| Release.ReleaseFirstYear | main.py:308-318 | Without a day or month match, the result is the first year match's year |
| Release.MergeReleaseInfo | main.py:341-352 | A present date is kept; an absent fallback changes nothing; merging fails iff a fallback is used that does not split into three parts at "-" |
| Release.MergeDayText | main.py:341-352 | Merging a dateless result with a legacy date gives that day-precision date |
| Release.NonEmptyDayHits | main.py:273-277 | Skipping empty summary texts does not change the first day match |
| Release.LegacyDate | main.py:329-338 | A legacy date is found exactly when some summary text has a day match with a known month; it is the date of the first such text, and it always splits at "-" into year, month and day |
| Release.MergeLegacyUnchanged | main.py:369-371 | On well-formed summaries the legacy date never changes the release information |
| Game.ParseName | main.py:164-181 | A non-empty header wins; otherwise the name comes from the scripts, and none is found iff no script has an item with a string name |
| Game.ParseNameFromScripts | main.py:170-180 | Without a header, the name is that of the first named item of the first script that has one |
| Game.PageRelease | main.py:369-371 | The release step of a page never fails and gives self-consistent information; a date the primary reader found is kept |
| Game.ParseGame | main.py:355-385 | A page gives no record iff it has no non-empty name |
| Game.ParseGameRecord | main.py:355-385 | A named page fails iff its address has no id; otherwise its record has the name, the content type of its summary texts (one of four), the time record the selection rule picks (all fourteen slots), the merged release data (consistent), the address and the id's decimal spelling |
| Game.ParseGameProducerUrl | main.py:444-460 | A page fetched at the producer's address never fails to parse, and its record carries the id it was fetched for |
| Crawl.ProducerUrl | main.py:444 | The producer's address for a non-negative id is the game address of that id |
| Crawl.ErrorReport | main.py:454 | The error report is the error text followed by a line break (the error message stands in for `repr(e)`) |
| Crawl.ProduceOne | main.py:445-460 | Each id yields one outcome for that id; a failed fetch carries neither data nor error; an error carries no data and is non-empty |
| Crawl.Walk | main.py:440-443 | Without an end the producer walks every fetched id; with one, exactly the fetched ids below the end, none when the end is not above the start |
| Crawl.Produce | main.py:440-462 | The producer yields one outcome per walked id, in id order starting at the start id |
| Crawl.ProduceIds | main.py:440-462 | The k-th item is an outcome for id start + k, below the end id when there is one |
| Crawl.ProduceNoErrors | main.py:444-460 | With a non-negative start no item is an error, and each record's id is the decimal spelling of its id |
| Crawl.Step | main.py:479-509 | An error changes nothing; a miss extends the streak and stops at the threshold; a hit resets the streak, and a new id is written once and remembered |
| Crawl.ConsumeAppend | main.py:473-509 | Consuming two batches in turn is consuming them joined |
| Crawl.ConsumeStopsAtSentinel | main.py:474-477 | Nothing after the end-of-stream marker is consumed |
| Crawl.ConsumeSound | main.py:497-503 | The consumer only appends to the output, and the known ids are the starting ones plus those written |
| Crawl.Consume | main.py:473-509 | The consumer only appends rows to the output and only adds ids to the known ones |
| Crawl.ConsumeFresh | main.py:497-503 | Starting from nothing written, no id is written twice and no id known at the start is written |
| Crawl.ConsumeSkipsKnown | main.py:497-500 | An id known when consuming starts is never written, whatever the items |
| Crawl.ConsumeWritesAll | main.py:497-503 | When no record carries a known id and no two carry the same one, every record is written, in order |
| Crawl.ConsumeStopSticky | main.py:489-491 | Once the stop flag is set it stays set |
| Crawl.ConsumeStreakGuarded | main.py:486-491 | Whenever the miss streak has reached the threshold, the stop flag is set |
| Crawl.ConsumeStreak | main.py:481-495 | The streak after consuming is the number of misses since the last hit, errors not counted |
| Crawl.MissesTrailing | main.py:481-495 | Counting misses item by item equals counting the trailing misses of the whole sequence |
| Crawl.ExistingIds | main.py:514-524 | Without a dataset no ids are known; with one, exactly its non-empty id cells |
| Crawl.MaxId | main.py:530-537 | The largest id that parses as an integer, or 0, with unparsable cells skipped |
| Crawl.ResumeStart | main.py:527-538 | The resumed start is at least 1 and above every id in the dataset |
| Crawl.ResumeStartReached | main.py:527-538 | The resumed start is 1 or exactly one past an id the dataset holds |
| Crawl.ResumeFresh | main.py:527-538 | No id from the resumed start on is already in the dataset |
| Crawl.StartEnd | main.py:551-557 | A positive explicit start wins, else the resumed one; "*" means no end, a number n (in any spelling `int()` takes, with ASCII digits) an end max(0, n) ids on, anything else fails |
| Crawl.Run | main.py:586-595 | For any start id, the crawl never writes an id twice and never writes an id already in the dataset; the known ids end as the dataset's plus those written |
| Crawl.RunResumed | main.py:549-595 | A crawl resumed from the dataset (no explicit start), whatever its end, skips no record the producer finds: the rows written are exactly the produced records, in id order |
| Dataset.Clean | filter.py:27-29 | The cleaned type is lower-case, dash-free and single-spaced |
| Dataset.CleanByWords | filter.py:27-29 | Cleaning gives the words of the lower-cased text, dashes read as blanks, joined by single blanks; the initial strip never changes the outcome |
| Dataset.CleanFixpoint | filter.py:27-29 | Cleaning text that is already clean leaves it unchanged |
| Dataset.NormalizeType | filter.py:26-36 | The result is clean; it is one of the three known types iff the cleaned input is one of their spellings, and then it is that spelling's type; any other cleaned input is returned unchanged |
| Dataset.NormalizeTypeIdempotent | filter.py:26-36 | Normalising a normalised type changes nothing |
| Dataset.JoinedTypeIsOther | filter.py:26-36 | The joined DLC and multiplayer type normalises to itself and is not a known type |
| Dataset.DetectedTypeNormalizes | filter.py:26-36 | Every type the parser detects is already normalised, and it is known iff it is not the joined one |
| Dataset.Filter | filter.py:56-59 | Filtering keeps exactly the rows that satisfy the condition |
| Dataset.FilterAppend | filter.py:56-59 | Filtering distributes over concatenation, so the order of rows is kept |
| Dataset.FilterCount | filter.py:56-60 | The kept rows and the dropped rows add up to all rows |
| Dataset.Project | filter.py:62-64 | Dropping columns removes exactly those columns and leaves every other cell unchanged |
| Dataset.FilterDataset | filter.py:40-66 | Fails iff a metric column is missing; otherwise keeps the rows with some metric, removes the service columns and counts before and after |
| Dataset.FilterDatasetCounts | filter.py:46-64 | The number of rows removed is the number whose metrics are all blank, and no service column survives |
| Dataset.SplitExports | filter.py:70-92 | Fails iff there is no type column; otherwise each export holds the rows of its type, without the service and helper columns |
| Dataset.SplitExportsSelect | filter.py:76-90 | A row is selected for an export iff it is an input row of that type; no export keeps "source_url", "crawled_at" or the helper column, in its columns or in any row |
| Dataset.PartitionCount | filter.py:79-84 | The three exports and the rows of no known type partition the rows |
| Dataset.SplitExportsOther | filter.py:84 | The "other" count is the number of rows of no known type, so never negative |

## Left out

- The fetcher (main.py:390-430) is not modelled: HTTP, retries, back-off, jitter and polite sleeps. Its result for each id is an input, `None` for a page that could not be fetched.
- Concurrency is not modelled: asyncio tasks, the queue, the stop event seen by the producer, and keyboard interrupts. The fetch results are the ids the producer reached before it saw the stop flag. Their number depends on timing and is an input.
- HTML parsing and `json.loads` are not modelled. Their outputs (header text, parsed scripts, tables, stats list, summary texts) are the fields of `Game.Page`.
- The release-date regular expressions are not modelled. Their first match in each summary text is an input (`Release.Summary`), restricted by `Release.WellFormed` where a lemma needs the three patterns to agree.
- The `crawled_at` timestamp is not modelled, because it reads the clock. Logging, CSV reading and writing, pandas I/O, `write_csv` and argument parsing are left out too.
- Crawl.ErrorReport: uses the error message where the source writes `repr(e)` (such as `ValueError('…')`), because the model's errors are plain messages rather than Python exception objects. It also drops the traceback after the line break, because that text depends on the Python runtime.
- Duration.RangeAverage: leaves the direction of Python's `round` on an exact half-hundredth open. It only states that the value is within half a hundredth of the mean and exact when the sum is even, because binary floating point decides those ties.
- Duration.ParseHours: returns exact hundredths rather than a Python float, so float representation error in `hours + minutes / 60` is not modelled.
- Duration.ParseHours: its own contract states only that a duration is non-negative and that empty text has none. The grammar's behaviour is stated tier by tier by the round-trip and range lemmas listed above, because a closed-form contract would repeat the whole grammar.
- Times.ReadTables: its own contract states only the set of slots. The values are stated by `Times.ReadTablesLastWrite` and `Times.ApplyWrites`.
- Text.Lower: folds only ASCII and Latin-1 capitals. Other Unicode case mappings are not modelled, and `\d` accepts ASCII digits only. The case-insensitive (`re.I`) tiers of `parse_hours` are matched on the lower-cased text only, so Python's Unicode case-insensitive matching, which also lets `ı` stand for `i` and `ſ` for `s`, is not modelled: Python reads "5 mıns" as 5 minutes and the model gives no value.
- Text.ParseInt: accepts ASCII digits only; Python's `int()` also reads other Unicode decimal digits. Underscore grouping is modelled.
- Crawl.StartEnd: reads the count with `Text.ParseInt`, so a count spelled with non-ASCII decimal digits fails here but not in Python.
- Crawl.MaxId: skips an id cell spelled with non-ASCII decimal digits, which Python's `int()` would read.
- Text.IsWordChar: `\w` is letters, digits and `_` of ASCII and Latin-1 only, while Python's `\w` on text is Unicode-wide. So `\b` differs after a non-Latin-1 letter: Python gives "5 hσ" no value, and `Duration.ParseHours` reads it as 5 hours.
- `split_exports` also adds the helper column to the caller's data frame. That side effect is not modelled, because the exports it returns do not depend on it.
- How pandas turns CSV text into missing values (read_csv's NaN spellings, dtype inference) is not modelled. A cell is given as missing or as text, and `Dataset.Blank` treats whitespace-only text as empty, as `filter_dataset` does.
