# Feed normalisation pipeline of `fetch_feeds.py`

This project models the core of the news-feed generator: `process_feeds` and
the helpers it calls per entry. The pipeline:

- reads the list of source URLs from `feeds.txt`;
- parses every source with the feed parser, skipping a source that fails or
  is flagged `bozo`;
- normalises at most the first five entries of each source. For each entry it
  selects and sanitises the content, cuts a plain-text summary of at most 300
  characters plus `...`, sets `has_full_content`, looks up an image with a
  fallback path, converts the date to ISO 8601 and derives the id from the
  link;
- sorts all collected records by date, newest first, undated records last.

Modules:

- `Text`: Python's `str.strip()` (with the `str.isspace()` character set) and
  string ordering `<=`.
- `DateTime`: the range checks of `datetime(...)` and `isoformat()`.
- `Entry`: the raw and normalised records and the per-entry steps.
- `Ordering`: the stable descending sort by `published or ""`.
- `Pipeline`: the source list, the per-source loop, the outer loop and
  `process_feeds`.

The feed parser, the HTML sanitiser, the HTML-to-text conversion, the
page-image lookup and the MD5 digest are fields of the datatype
`Entry.Collaborators`. Their internals are not modelled.

The loops of `process_feeds` are methods. `Pipeline.ReadSource` is one pass of
`for url in urls`, proved to append exactly `Pipeline.SourceEntries` of its
source. `Pipeline.CollectSources` is the whole loop, proved to return exactly
`Pipeline.Collected`. The lemmas state what `Collected` and the sort
guarantee.

Two behaviours of the code that a reader might not expect:

- `has_full_content` is `len(summary_text) > 300`
  (`fetch_feeds.py:160`). This is true exactly when the plain text was
  truncated. It does not test whether a separate full-content field existed.
- A missing `title` or `link`, or an out-of-range date, raises inside the
  per-entry loop. The `except` around the whole source catches it
  (`fetch_feeds.py:141-180`). So the source's remaining entries are
  abandoned, while the records already appended stay. They are not skipped
  one entry at a time.

## Model

| member | source | states |
|---|---|---|
| Text.Strip | fetch_feeds.py:134 | the stripped line is empty exactly when the line is all `isspace()` characters, else it starts and ends with a non-space character; never longer than the input |
| Text.TrimStartSuffix | fetch_feeds.py:108 | the leading-whitespace strip is a suffix of the input, the removed part is all whitespace and the result does not start with whitespace |
| Text.TrimEndPrefix | fetch_feeds.py:108 | the trailing-whitespace strip is a prefix of the input, the removed part is all whitespace and the result does not end with whitespace |
| Text.StripIdempotent | fetch_feeds.py:134 | stripping an already stripped string changes nothing |
| Text.LexLeqReflexive | fetch_feeds.py:183 | string `<=` is reflexive |
| Text.LexLeqTotal | fetch_feeds.py:183 | any two strings are comparable by `<=` |
| Text.LexLeqAntisymmetric | fetch_feeds.py:183 | `a <= b` and `b <= a` only for equal strings |
| Text.LexLeqTransitive | fetch_feeds.py:183 | string `<=` is transitive, so it is a total order the sort can use |
| Text.EmptyIsLeast | fetch_feeds.py:183 | the key `""` of an undated record is below every other key |
| Text.LexLeqConcat | fetch_feeds.py:183 | comparing concatenations with equal-length heads: the heads decide, the tails only on a tie |
| Text.LexLeqFirstDifference | fetch_feeds.py:183 | two strings that agree up to index `i` compare as their characters at `i` |
| DateTime.DaysInMonth | fetch_feeds.py:165 | the day limit `datetime(...)` checks is 28 to 31: 29 exactly in February of a leap year, 28 exactly in February otherwise, 30 exactly in April, June, September and November |
| DateTime.IsValid | fetch_feeds.py:165 | the range checks of `datetime(...)`: year 1 to 9999, month 1 to 12, day within the month, hour, minute and second in range; outside them the constructor raises |
| DateTime.IsValidExamples | fetch_feeds.py:165 | 29 February is accepted in 2024 and 2000 and refused in 2023 and 1900; second 60 and year 0 are refused |
| DateTime.ZeroPad | fetch_feeds.py:165 | a zero-padded field of `isoformat()` has exactly its width and only digits |
| DateTime.ZeroPadOrder | fetch_feeds.py:165 | zero-padded numerals of one width compare as strings as the numbers do, and are equal only for equal numbers |
| DateTime.IsoFormat | fetch_feeds.py:165 | `isoformat()` of a valid datetime is 19 characters: digits, with `-`,`-`,`T`,`:`,`:` at positions 4, 7, 10, 13, 16 |
| DateTime.MonthPartOrder | fetch_feeds.py:165 | `YYYY-MM` strings compare as (year, month) |
| DateTime.DayPartOrder | fetch_feeds.py:165 | `YYYY-MM-DD` strings compare as (year, month, day) |
| DateTime.HourPartOrder | fetch_feeds.py:165 | `YYYY-MM-DDTHH` strings compare as (year, month, day, hour) |
| DateTime.MinutePartOrder | fetch_feeds.py:165 | `YYYY-MM-DDTHH:MM` strings compare as (year, month, day, hour, minute) |
| DateTime.IsoFormatOrder | fetch_feeds.py:183 | two `isoformat()` strings compare as strings in the chronological order of their timestamps, and are equal only for equal timestamps, so the string sort is a sort by time |
| Entry.ExtractContent | fetch_feeds.py:83-94 | the first content variant's value when `content` is a non-empty list whose first value is non-empty; else a non-empty summary; else the placeholder text; never empty |
| Entry.ExtractContentExamples | test_fetch_feeds.py:29-39 | the two unit-test cases (a content value wins; a summary is used when there is no content), plus the placeholder when both are empty, which follows `fetch_feeds.py:94` |
| Entry.Excerpt | fetch_feeds.py:107-109 | the stripped text when it has at most 300 characters; else its first 300 characters plus `...`, 303 in all; never over 303; longer than 300 exactly when the text was |
| Entry.ExtractSummaryText | fetch_feeds.py:96-109 | the summary of the HTML's text has at most 303 characters, is the stripped text when that has at most 300, and is longer than 300 exactly when the stripped text is |
| Entry.HasFullContent | fetch_feeds.py:160 | `has_full_content` is `len(summary_text) > 300` |
| Entry.FullContentMeansTruncated | fetch_feeds.py:159-160 | the flag is set exactly when the stripped text exceeds 300 characters, and then the summary is its first 300 characters plus `...`; otherwise the summary is the whole stripped text |
| Entry.GenerateId | fetch_feeds.py:111-121 | the id is the hex MD5 digest of the link |
| Entry.GenerateIdDistinct | test_fetch_feeds.py:41-46 | equal links give equal ids, and distinct links give distinct ids whenever the digest does not collide on them |
| Entry.ChooseImage | fetch_feeds.py:162-163 | the looked-up image URL when it exists and is not blank, else `assets/img/fallback.jpg`; never empty or blank |
| Entry.SelectDate | fetch_feeds.py:164 | `published_parsed` when present, else `updated_parsed`; absent exactly when both are |
| Entry.NormalizeDate | fetch_feeds.py:165 | raises exactly for a present, out-of-range date; `None` exactly for no date; else the 19-character `isoformat()` of the date |
| Entry.NormalizeEntry | fetch_feeds.py:148-176 | an entry yields a record exactly when it has a link, a title and no invalid date; otherwise it raises, first for the link (read for the image lookup), then for the date, then for the title |
| Entry.NormalizedRecord | fetch_feeds.py:149-176 | a built record copies link and title, has id = MD5 of the link, the sanitised content, the bounded excerpt of its text, `has_full_content` exactly when that text exceeds 300 characters, the image `ChooseImage` picks from the lookup (the URL when present and not blank, else the fallback path), and a date absent only when the entry has none, else the `isoformat()` of the selected date |
| Ordering.SortKey | fetch_feeds.py:183 | the sort key `x["published"] or ""`: the ISO date, or the empty string for an undated record |
| Ordering.Insert | fetch_feeds.py:183 | inserting one record adds exactly that record (multiset) |
| Ordering.InsertSorted | fetch_feeds.py:183 | insertion keeps a list descending by key |
| Ordering.SortByPublished | fetch_feeds.py:183 | the sorted list is descending by `published or ""` and a permutation of the input |
| Ordering.InsertWithKey | fetch_feeds.py:183 | insertion puts the new record before the records of its own key |
| Ordering.SortStable | fetch_feeds.py:183 | for every key, the records with that key keep their collected order (Python's sort is stable, also with `reverse=True`) |
| Ordering.SortedDescUnique | fetch_feeds.py:183 | two descending lists with the same records per key, in the same order, are equal |
| Ordering.SortIsDetermined | fetch_feeds.py:183 | any descending, stable rearrangement of the input, which is what `list.sort` produces, equals `SortByPublished` |
| Ordering.UndatedLast | fetch_feeds.py:183 | in a descending list with no empty date string, every undated record comes after every dated one |
| Ordering.SortedUndatedLast | fetch_feeds.py:183 | the sorted list puts undated records last |
| Ordering.SortTwo | fetch_feeds.py:183 | an undated record collected before a dated one is sorted after it |
| Ordering.SortThree | fetch_feeds.py:183 | older, undated, newer are sorted to newer, older, undated |
| Ordering.SortExample | fetch_feeds.py:183 | January, undated, June are sorted to June, January, undated |
| Pipeline.SourceUrls | fetch_feeds.py:132-134 | the source list keeps no blank line, and each URL has no surrounding whitespace; no more URLs than lines |
| Pipeline.SourceUrlsLine | fetch_feeds.py:134 | one line contributes its `strip()`, or nothing when that is empty |
| Pipeline.SourceUrlsConcat | fetch_feeds.py:134 | the URLs of concatenated line lists are the URLs of each part in order, so every non-blank line contributes its `strip()` in file order |
| Pipeline.SourceUrlsMembers | fetch_feeds.py:134 | a URL is in the list exactly when it is the non-empty `strip()` of some line |
| Pipeline.FirstEntries | fetch_feeds.py:148 | `entries[:5]`: a prefix of the entries, of length five or all of them |
| Pipeline.UntilFailure | fetch_feeds.py:148-180 | the records of the leading entries, each the record of its entry, stopping right before the first entry that raises |
| Pipeline.SourceEntries | fetch_feeds.py:141-180 | a source that raised or is `bozo` contributes nothing; a parsed one at most five records and no more than its entries |
| Pipeline.Collected | fetch_feeds.py:139-180 | the list `all_entries` holds after the loop: the contributions of the sources, in source order |
| Pipeline.CollectedConcat | fetch_feeds.py:139-180 | collecting from two lists of sources gives the two collections in order |
| Pipeline.FailedSourceSkipped | fetch_feeds.py:141-146 | a source whose parse raised or was `bozo` adds nothing, and the other sources contribute as without it |
| Pipeline.SourceEntriesInFeedOrder | fetch_feeds.py:148-180 | a parsed source contributes at most five records, the records of its leading entries in feed order, stopping exactly at the first of its first five entries that raises |
| Pipeline.CollectedBound | fetch_feeds.py:148 | at most five records per source are collected |
| Pipeline.CollectedAll | fetch_feeds.py:139-176 | every collected record is a record the per-entry step built |
| Pipeline.NormalizerDates | fetch_feeds.py:165 | a built record's date is absent or 19 characters |
| Pipeline.CollectedDates | fetch_feeds.py:165-174 | no collected record has an empty date string |
| Pipeline.ReadSource | fetch_feeds.py:141-180 | one pass of `for url in urls` appends exactly the records that source contributes |
| Pipeline.CollectSources | fetch_feeds.py:139-180 | the loop over all sources collects exactly `Collected(urls)`, source by source |
| Pipeline.ProcessFeeds | fetch_feeds.py:130-184 | no records when `feeds.txt` is missing; otherwise the sorted records collected from the stripped, non-blank source lines |
| Pipeline.ProcessFeedsResult | fetch_feeds.py:139-184 | the result holds at most five records per source, is descending by date, is a permutation of what was collected, and ends with the undated records |
| Pipeline.NewestFirst | fetch_feeds.py:183 | of two dated records in the result, the earlier one has the later or equal timestamp |

## Left out

- Network access, `feedparser` internals, HTTP headers beyond the constant map, and timeouts. The parse of one source is the collaborator `parse`, which returns `Unreachable` (it raised), `Malformed` (`bozo`) or the entries.
- `extract_image` (`fetch_feeds.py:43-69`) is the collaborator `extractImage`. It never raises and returns a URL or `None`; HTML parsing is not modelled.
- `bleach.clean` and `BeautifulSoup.get_text` are the collaborators `clean` and `getText`. The allow-lists are passed as the exact constants, but what sanitising removes is not modelled.
- Entry.GenerateId: the MD5 digest is the collaborator `md5Hex`. MD5's collision resistance cannot be stated, so `Entry.GenerateIdDistinct` proves distinct ids for distinct links only under the assumption that the digest does not collide on them.
- Logging, `main` (writing `news.json`, Jinja rendering, copying assets) and the `requests` exceptions are not modelled. The two `except` clauses behave alike and are one error path.
- `feeds.txt` reading is a parameter: the list of its lines, or `None` for `FileNotFoundError`. Other I/O errors are not modelled.
- Entry.ExtractContent: only three shapes of `content` are modelled: absent or falsy, a non-list, or a list of variants with an optional string `value`. A first item that is not a dict would raise in the source; that case, and fields of types other than strings, are not modelled.
- Entry.NormalizeDate: a date tuple is modelled by its first six integer fields. A tuple with fewer fields is not modelled.
- Ordering.SortByPublished: Python's in-place Timsort is modelled by a stable insertion sort on values. `Ordering.SortIsDetermined` shows that any stable descending rearrangement equals it, but in-place update and aliasing of the list are not captured.
- Pipeline.ReadSource and Pipeline.CollectSources take the parse and the per-entry step as parameters. `ProcessFeeds` instantiates them with the collaborators.
