# himpuh-rss scraper core, modelled in Dafny

`main.py` reads the blog page of himpuh.or.id and builds an RSS feed of its
four newest posts. This project models the logic that sits between the HTML
parse and the feed writer, and proves properties of it:

- **Date normaliser** (`PostingPattern`, `DateNormalizer`, `Calendar`). It
  finds "Ditulis pada : 04 November 2025, 10:00:53" anywhere in a posting-time
  text, the way `re.search` does with `re.IGNORECASE`. It translates the
  Indonesian month name through the twelve-entry table, parses the result
  with `strptime("%d %B %Y %H:%M:%S")` and attaches the +07:00 offset. Every
  failure gives None. The regex is a hand-written scanner (`ScanAt`,
  `FindFrom`, `Search`), proved equal to a declarative reading of the
  pattern (`Fits`). A `DateTime` record plus `Valid` stands for Python's
  `datetime`.
- **Link and image rules** (`Links`). A missing `href` becomes the blog URL.
  An `href` that starts with "/" gets the site origin in front. Any other
  `href` is kept. A thumbnail's `data-origin` is kept only when it ends in
  ".webp".
- **Extraction loop** (`Extractor`). The HTML is given abstractly as a
  `Page`: each `judul` div with its first anchor and its parent, plus the
  document-wide lists of intro texts, thumbnails and posting-time texts.
  `ExtractArticles` is the loop. It skips divs without an anchor. Content
  falls back to the first intro of the page, then to "No content found".
  Thumbnail and date fall back to element `i` of the page-wide list, but only
  when `i` is within it. `i` counts every title div, skipped ones included.
- **Selection** (`Selector`). The records are decorated with their key, as
  `list.sort(key=...)` computes each key once. They are sorted in place by a
  stable newest-first insertion sort on an array, then cut to four.
  - The extracted dates are aware (UTC+7) and `datetime.min` is naive. Python
    refuses to order an aware value against a naive one. So `Select` returns
    `Failure(NaiveAwareComparison)` exactly when the list holds both a dated
    and an undated record.
  - A comparison sort that never compares a dated record with an undated
    one cannot tell whether the undated group goes before or after the dated
    group. Any sort of a mixed list therefore makes such a comparison, and
    that comparison raises.
- **Intended order** (`IntendedOrder`). This is the corrected selection
  listed under "## Findings".

Facts about the code that a reader might not expect:

- A protocol-relative `href` such as "//cdn.example/a.jpg" starts with "/",
  so the code puts the origin in front of it
  (`Links.ProtocolRelativeLinkIsPrefixed`).
- The title is the stripped anchor text, and nothing checks that it is
  non-empty. Empty anchor text gives an empty title, and `href=""` gives the
  empty link.
- A list holding both dated and undated records makes the sort raise
  `TypeError` (see "## Findings").
- With the corrected key, six records of which four carry dates give a feed
  of those four, newest first (`IntendedOrder.IntendedFeed`).

Files: `wrappers.dfy` (Option, Result), `text.dfy` (ASCII character classes,
`lower`, `strip`, digit strings), `calendar.dfy`, `posting_pattern.dfy`,
`date_normalizer.dfy`, `links.dfy`, `extractor.dfy`, `selector.dfy` and
`intended_order.dfy`.

## Model

| member | source | states |
|---|---|---|
| PostingPattern.ScanAtFindsEveryFit | main.py:75 | The scanner at position `p` returns layout `l` exactly when the pattern matches from `p` with that layout. The scanner misses no match and invents none. |
| PostingPattern.FindFrom | main.py:75 | The scan from `p` only reports a start at or after `p`, and the scanner matches at that start. |
| PostingPattern.SearchIsLeftmostMatch | main.py:75-77 | `re.search`: None exactly when the pattern matches nowhere. Otherwise the groups of the leftmost match, which are always well formed: a 1-2 digit day, a word month token, a 4-digit year, a 1-2 digit hour, and a 2-digit minute and second. |
| PostingPattern.FitGroupsWellFormed | main.py:75-77 | Every match captures well-formed groups. |
| PostingPattern.SearchMatchAtStart | main.py:75-77 | A text the pattern matches from its first character yields the groups of that match. |
| DateNormalizer.MonthMapPairs | main.py:18-23 | The table maps the k-th Indonesian month to the k-th English month and holds nothing else. |
| DateNormalizer.TranslateMonth | main.py:79-80 | `month_map.get(token.lower(), token)`: the English name when the lower-cased token is an Indonesian month, the token unchanged otherwise. |
| DateNormalizer.MonthNumber | main.py:84 | `%B`: month `m` exactly when the text lower-cases to the English full name of `m`, otherwise None. |
| DateNormalizer.TranslatedMonthNumber | main.py:79-84 | A token names month `m` exactly when, in lower case, it is the Indonesian or the English full name of `m`. Any other token yields no month. |
| DateNormalizer.Strptime | main.py:83-84 | The parse yields only valid, naive values. |
| DateNormalizer.StrptimeIsStrict | main.py:81-89 | On the groups of a match, the parse succeeds exactly when the month is known, the year is at least 1, the day is within its month (leap years included), the hour is below 24 and the minute and second are below 60. It then yields exactly those numbers. |
| DateNormalizer.NormalizedDateIsJakarta | main.py:71-89 | Every date the normaliser returns is valid and at UTC+7. A text without a match gives None. |
| DateNormalizer.SearchPostingText | main.py:75-77 | On a posting line the search captures exactly the pieces the line was written from. |
| DateNormalizer.NormalizePostingText | main.py:71-89 | On a posting line the normaliser succeeds exactly when the month token names a month and the numbers form a real date and time. It then yields exactly that date and time at +07:00. |
| DateNormalizer.NormalizeDateRoundTrip | main.py:71-89 | Writing a valid date as the blog does, with the month in Indonesian or English and in any case, and then normalising it gives the same date back at +07:00. |
| DateNormalizer.MonthToken | main.py:75-84 | A token spelling month `m` in Indonesian or English, in any case, is captured by the pattern and yields month `m`. |
| DateNormalizer.WorkedExampleText | main.py:74 | The quoted example line is a posting line for 4 November 2025, 10:00:53. |
| DateNormalizer.WorkedExample | main.py:74-87 | "Ditulis pada : 04 November 2025, 10:00:53" gives 2025-11-04 10:00:53+07:00. |
| DateNormalizer.DayBeyondMonthRejected | main.py:81-89 | 31 November gives None. |
| DateNormalizer.Hour24Rejected | main.py:81-89 | Hour 24 gives None. |
| DateNormalizer.Second60Rejected | main.py:81-89 | Second 60 gives None: `%S` admits it and the `datetime` range check refuses it. |
| DateNormalizer.LeapDay | main.py:81-89 | 29 Februari parses in 2024 and gives None in 2025. |
| DateNormalizer.EnglishMonthParses | main.py:79-84 | "MAY" is not in the table, passes through, and still parses as May. |
| DateNormalizer.AbbreviatedMonthRejected | main.py:79-89 | "Nov" is in neither table and gives None. |
| DateNormalizer.NoCommaNoDate | main.py:75-76 | Text with no comma cannot match and gives None. |
| Text.StripIsTrimmedPiece | main.py:32 | `str.strip()` returns the piece left once the whitespace at both ends is cut off. |
| Links.AbsoluteLink | main.py:33-36 | A missing `href` becomes the blog URL. A leading "/" gets the origin in front. Anything else is unchanged. |
| Links.LinkNeverRootRelative | main.py:33-36 | No emitted link starts with "/". |
| Links.AbsoluteLinkIdempotent | main.py:33-36 | Making a link absolute twice gives the same link as once. |
| Links.RootRelativeLinkKeepsPath | main.py:35-36 | A root-relative link becomes the origin followed by exactly the `href`. |
| Links.ProtocolRelativeLinkIsPrefixed | main.py:35-36 | "//cdn.example/a.jpg" also gets the origin in front. |
| Links.WebpImage | main.py:57-61 | The image is present exactly when `data-origin` exists and ends in ".webp", and it is then that value. |
| Links.WebpImageIdempotent | main.py:57-61 | Filtering twice gives the same as filtering once. A kept image is at least five characters long. |
| Links.WebpSuffixIsExact | main.py:60-61 | ".WEBP" and ".webp?w=300" are dropped and "a.webp" is kept: the check is case-sensitive and looks only at the end. |
| Extractor.FallBackByIndex | main.py:49-54 | The parent's element if there is one, else element `i` of the page-wide list when `i` is within it, else nothing. |
| Extractor.BuildArticleFields | main.py:32-97 | A record's title is the stripped anchor text and its link is the absolute `href`. Its image, if any, ends in ".webp", and its date, if any, is valid at UTC+7. |
| Extractor.FallbackRules | main.py:40-69 | Content comes from the parent's intro, else the page's first intro, else "No content found". Image and date come from the parent's element, else element `i` of the page-wide list when `i` is within it, else None. |
| Extractor.AnchoredIndices | main.py:26-30 | The positions it lists are in range, hold an anchor, and increase strictly. |
| Extractor.AnchoredIndicesComplete | main.py:26-30 | No title div with an anchor is left out. |
| Extractor.ExtractedFollowsAnchors | main.py:26-97 | One record per anchored title div, in document order: the k-th record is the one built for the k-th anchored div. |
| Extractor.ExtractedDatesAreJakarta | main.py:71-97 | Every date the loop records is valid and at UTC+7. |
| Extractor.SkippedDivsKeepTheirIndex | main.py:26-54 | The fallback index counts skipped divs: after a div without an anchor, the next record takes the second thumbnail. |
| Extractor.ExtractArticles | main.py:26-97 | The loop returns the records of every anchored div in order (the `Extracted` specification). |
| Calendar.Valid | main.py:84-87 | The range checks of `datetime` and `timezone`: year 1 to 9999, month 1 to 12, day within its month (leap years included), hour below 24, minute and second below 60, offset strictly between -24 and 24 hours. |
| PostingPattern.ScanAt | main.py:75 | The pattern tried at one start position, reading each run greedily: the layout of the match there, or None. |
| PostingPattern.Search | main.py:75-77 | `re.search(...).groups()`: the six groups of the leftmost match, or None. |
| DateNormalizer.NormalizeDate | main.py:71-89 | The whole normaliser: search, month translation, `strptime`, +07:00 offset; None wherever the code leaves `published_date` as None. |
| Text.Strip | main.py:32 | `str.strip()`: the text with leading and trailing whitespace removed (also used for the content at main.py:46). |
| Extractor.ContentOf | main.py:38-46 | The stripped text of the parent's intro, else of the page's first intro, else "No content found". |
| Extractor.ImageOf | main.py:48-61 | The thumbnail chosen by `FallBackByIndex`, filtered by `WebpImage`. |
| Extractor.PublishedOf | main.py:63-89 | The posting-time text chosen by `FallBackByIndex`, normalised by `NormalizeDate`. |
| Extractor.BuildArticle | main.py:32-97 | The record appended for an anchored title div: stripped title, absolute link, content, image and date. |
| Extractor.Extracted | main.py:26-97 | The records after visiting the first `n` title divs: the previous records, plus one built for div `n - 1` when it holds an anchor. |
| Selector.SortKey | main.py:100 | The key lambda: the record's date, or the naive `datetime.min` when it has none. |
| Selector.Rank | main.py:100 | The key as an instant, so that keys compare as Python compares them within a list that is not mixed. |
| Selector.Mixed | main.py:100 | The condition under which the sort raises `TypeError`: some record has a date and some record has none. |
| Selector.SortNewestFirst | main.py:100 | `sort(reverse=True)` on the decorated list: each record inserted after every earlier record at least as new. |
| Selector.SortedByDate | main.py:100 | Keys computed once, the decorated list sorted, the keys dropped again. |
| Selector.Selection | main.py:100-101 | The first four records of the sorted list. |
| Calendar.InstantOrdersLikeFields | main.py:100 | For valid values with the same offset, the instant order is the field order, and equal instants mean equal values. |
| Selector.RankOrdersLikeDates | main.py:100 | For two valid dates at the same offset, the sort key orders records exactly as their dates compare. |
| Selector.SortIsOrderedPermutation | main.py:100 | The sort returns a non-increasing arrangement of exactly its input. |
| Selector.SortIsStable | main.py:100 | For every key value, the records with that key keep their input order. |
| Selector.StableSortIsUnique | main.py:100 | Every stable newest-first arrangement of the input is the model's sort. Python's stable `sort(reverse=True)` therefore gives the same list. |
| Selector.EqualRanksKeepOrder | main.py:100 | A list whose keys are all equal is left as it is. |
| Selector.FeedPrefix | main.py:101 | `[:4]`: the first four elements, or all of them when there are fewer. |
| Selector.SortedByDateIsNewestFirst | main.py:100 | The sorted records are exactly the input records, with keys non-increasing. |
| Selector.SelectionKeepsNewest | main.py:100-101 | The feed holds min(4, n) records: the head of the sorted list, all taken from the input. No record left out is newer than a record kept. |
| Selector.UndatedKeepDocumentOrder | main.py:100-101 | With no dates at all, the list keeps document order and the feed is its first four records. |
| Selector.DatedSortByDate | main.py:100 | With every record dated as the extractor dates them, no sorted record is followed by one with a later date. |
| Selector.ExtractedFeedIsByDate | main.py:26-101 | When every extracted record has a date, the list is not mixed and the feed runs from the newest date to the oldest. |
| Selector.InsertInPlace | main.py:100 | One pass on the array puts `a[i]` into the sorted prefix after every record at least as new, and leaves the rest of the array unchanged. |
| Selector.SortNewestFirstInPlace | main.py:100 | The in-place sort leaves the array holding the stable newest-first order of its old contents. |
| Selector.Select | main.py:100-101 | Failure exactly when dated and undated records are mixed. Otherwise the first four records of the stable newest-first order. |
| IntendedOrder.ValidInstantAboveUndated | main.py:100 | Every valid date ranks above the shared rank of undated records. |
| IntendedOrder.IntendedSortPutsUndatedLast | main.py:99-100 | Under the intended key the sorted list is a permutation of the input with the same number of dated records. Every undated record comes after every dated one, and the dates run from newest to oldest. |
| IntendedOrder.IntendedSortKeepsUndatedOrder | main.py:100 | Under the intended key the undated records keep their document order. |
| IntendedOrder.IntendedFeed | main.py:99-101 | Under the intended key the feed has min(4, n) records. Position `i` is dated exactly when `i` is below the number of dated records, and those come newest first. |
| IntendedOrder.UndatedRecordBreaksFeed | main.py:100 | One dated and one undated record form a mixed list, on which `Select` fails. The intended key lists the dated record first. |

## Findings

| source | as written | input that shows it | evidently intended | confidence | as-written member | corrected member |
|---|---|---|---|---|---|---|
| main.py:100 | The key is the aware date, or the naive `datetime.min` when there is none. Ordering the two raises `TypeError`, so a list with both dated and undated records stops the script before any feed is written. | Two records, one posted 2025-11-04 10:00:53+07:00 and one without a posting time | Newest first, with undated records after every dated one. Key (has a date, date) | high (not executed) | IntendedOrder.UndatedRecordBreaksFeed | IntendedOrder.IntendedFeed |

`Selector.Select` stays as written: it returns the failure. `IntendedOrder`
gives the corrected selection, `IntendedSelection`, and proves its
properties.

## Left out

- The HTTP request for the blog page (main.py:9) is network I/O and is not part of this model.
- BeautifulSoup parsing and its `find`/`find_all` lookups (main.py:10, 14, 28, 41-69) belong to a foreign library. Their answers are the fields of `Extractor.Page`. How `class_='intro mb5'` matches multi-valued classes, `.text` and `get_text()` are therefore not modelled.
- The feedgen feed and its RSS serialisation (main.py:104-122) belong to a foreign library whose output format is not part of this model.
- Writing `output.xml` (main.py:125-126) is file I/O.
- Python's Unicode semantics for `\d`, `\w`, `\s`, `str.lower` and `str.strip` are restricted to ASCII. A non-ASCII digit, letter or space is never in a class here.
- `re.IGNORECASE` also matches Unicode case equivalents: "DİTULİS PADA", "ditulıs pada" and "ditulis pada" spelled with "ſ" match in Python, because 'İ' and 'ı' match 'i' and 'ſ' matches 's'. `PostingPattern.LabelAt` compares after ASCII lower-casing only and rejects these spellings.
- `strptime` locale handling: `%B` reads only the English full month names, as in the C locale.
- Python's Timsort is modelled by a stable insertion sort. `Selector.StableSortIsUnique` shows that any stable newest-first sort gives the same list.
- Selector.Select: decides the mixed-list failure before sorting. Python raises at the first dated-versus-undated comparison, with the list partly reordered. That intermediate state is unobservable, because the exception ends the script.
- Selector.ExtractedFeedIsByDate: stated only for pages where every extracted record has a date. On any other page with a dated record the sort raises (Selector.Select).
- IntendedOrder.IntendedFeed: assumes dates as the extractor produces them (valid, at UTC+7). That is the only kind the scraper makes.
