# FTSE 100 historical constituents: period filter and symbol matching

A Dafny model of the deterministic core of the FTSE 100 data scraper's second
stage (`scraping-scripts/ftse100_scraper_part_2.py`). That stage takes a table
of monthly index constituents, already reconstructed, and does three things:

- **Month count** (`months_between_date`). It parses two `yyyy-mm-dd` dates and
  returns `(end.year − start.year) * 12 + (end.month − start.month) + 1`. That
  is the number of calendar months the inclusive period touches. The day of
  the month is ignored, and start is never checked to precede end.
- **Present for the whole period** (`common_constituents`). It keeps the
  table rows whose date lies in `[start, end]` and that have no missing field.
  It counts each symbol and returns the symbols whose count equals the month
  count.
- **Company/symbol matching** (`match_company_symbol`). It walks the
  constituents table in blocks of 100 rows. It inner-joins each block with the
  (Company, Symbol) table on Company and appends the result to an accumulator.
  Only `len // 100` blocks are walked.

Modules:

- `Dates` (`dates.dfy`): parsed dates, a strict `yyyy-mm-dd` parser and
  formatter, and the month arithmetic.
- `Constituents` (`constituents.dfy`): the period filter, the value counts and
  the selection, as functions over a sequence of rows.
- `Matching` (`matching.dfy`): the block-wise join. It is a method with a loop
  proved against a recursive reference definition of the walk. The file also
  holds the corrected walk described under Findings.

pandas operations are modelled by their documented meaning:

- `.loc[start:end]` on a sorted date index is an inclusive filter.
- `dropna(how='any')` drops a row with any missing field.
- `value_counts()` is the multiset of the Symbol column.
- An inner `merge` yields one row per matching (left row, right row) pair.

## Model

| member | source | states |
|---|---|---|
| `Dates.ParseDate` | scraping-scripts/ftse100_scraper_part_2.py:22-23 | A successful parse yields a date that `datetime` accepts: year 1..9999, month 1..12, and a day that exists in that month, leap years included. A failure carries the rejected text. |
| `Dates.ParseFormat` | scraping-scripts/ftse100_scraper_part_2.py:22-23 | Every valid date formatted as `yyyy-mm-dd` parses back to itself. |
| `Dates.FormatParse` | scraping-scripts/ftse100_scraper_part_2.py:22-23 | Any text the parser accepts is exactly the canonical formatting of the date it returns. |
| `Dates.MonthsBetween` | scraping-scripts/ftse100_scraper_part_2.py:26 | The result is the difference of the two absolute month numbers plus one. It is 1 for two dates in the same month, and at least 1 exactly when start's month is not after end's. When start's month is later, it is ≤ 0. |
| `Dates.MonthsBetweenDate` | scraping-scripts/ftse100_scraper_part_2.py:13-26 | On text, it succeeds exactly when both dates parse. A bad end date is reported first, because it is parsed first. On success the value is the month count of the parsed dates. |
| `Dates.MonthsBetweenIgnoresDay` | scraping-scripts/ftse100_scraper_part_2.py:22-26 | Dates with equal year and month give equal counts, whatever their days. |
| `Dates.MonthsBetweenNextMonth` | scraping-scripts/ftse100_scraper_part_2.py:26 | Moving the end date to any day of the following calendar month raises the count by exactly one. |
| `Dates.MonthsBetweenCountsCalendarMonths` | scraping-scripts/ftse100_scraper_part_2.py:13-26 | Compares the count with an independent step-by-step list of calendar months. When the count is positive, it equals the number of months listed from start's month to end's month inclusive. Those months are distinct and lie between the two dates. When the count is not positive, the list is empty. |
| `Constituents.KeepRows` | scraping-scripts/ftse100_scraper_part_2.py:40-41 | Every row that survives the `.loc` slice and `dropna` has its date in `[start, end]` and no missing field. There are never more of them than input rows. |
| `Constituents.KeepRowsMembers` | scraping-scripts/ftse100_scraper_part_2.py:40-41 | A row survives exactly when it is in the table, dated inside the period and complete. |
| `Constituents.KeepRowsCounts` | scraping-scripts/ftse100_scraper_part_2.py:40-41 | A surviving row keeps its multiplicity. Every other row has multiplicity zero. |
| `Constituents.KeepRowsAppend` | scraping-scripts/ftse100_scraper_part_2.py:40-41 | Filtering a concatenation of two tables gives the concatenation of the two filtered tables. |
| `Constituents.Distinct` | scraping-scripts/ftse100_scraper_part_2.py:44-45 | Lists the distinct symbols of the column, each exactly once. These are the index of `value_counts`. |
| `Constituents.WithCount` | scraping-scripts/ftse100_scraper_part_2.py:45 | Selects exactly the keys whose count equals `f`. It keeps distinctness, and returns nothing when no key has that count. |
| `Constituents.CommonConstituentsOn` | scraping-scripts/ftse100_scraper_part_2.py:40-46 | A symbol is returned iff its number of in-period complete rows is positive and equals the month count. A symbol seen more or fewer times is excluded. No symbol is returned twice. |
| `Constituents.CommonConstituents` | scraping-scripts/ftse100_scraper_part_2.py:29-46 | On text dates, it succeeds exactly when both dates parse. On success it returns the selection above, with the count taken from `MonthsBetweenDate`. |
| `Constituents.IgnoresRowsOutsidePeriod` | scraping-scripts/ftse100_scraper_part_2.py:40-41 | Appending rows that are out of the period or incomplete does not change the result. |
| `Constituents.EmptyWhenNoMonths` | scraping-scripts/ftse100_scraper_part_2.py:43-45 | If the month count is ≤ 0, the result is empty, because any counted symbol has count ≥ 1. |
| `Constituents.WholePeriodMeansEveryMonth` | scraping-scripts/ftse100_scraper_part_2.py:42-45 | Assumes the table holds at most one row per symbol per calendar month. Then a symbol is returned iff the period is non-empty and the symbol has a complete row in every month of it. |
| `Constituents.CountIsMonthsPresent` | scraping-scripts/ftse100_scraper_part_2.py:44 | With at most one row per symbol per month, a symbol's count equals the number of distinct months it occupies. |
| `Matching.MergeRowCounts` | scraping-scripts/ftse100_scraper_part_2.py:62-63 | One constituent row yields each (Company, Symbol) pair of its own company as often as the symbols table holds that pair, and yields nothing else. |
| `Matching.MergeCounts` | scraping-scripts/ftse100_scraper_part_2.py:62-63 | In the inner merge of a block, an output row occurs (count of its constituent row in the block) × (count of its symbols row) times. |
| `Matching.MergeAppend` | scraping-scripts/ftse100_scraper_part_2.py:62-64 | Merging a concatenation of two blocks gives the concatenation of the two merges. |
| `Matching.WalkedLengthBounds` | scraping-scripts/ftse100_scraper_part_2.py:61 | The loop reads at most the whole table and leaves fewer than 100 rows unread. |
| `Matching.ChunkedJoinIsMergeOfWalkedPrefix` | scraping-scripts/ftse100_scraper_part_2.py:61-64 | The walk equals one merge of the first `(n div 100) * 100` rows. Fewer than 100 rows give an empty result. |
| `Matching.TrailingPartialBlockIgnored` | scraping-scripts/ftse100_scraper_part_2.py:61 | Appending fewer than 100 rows to a table of whole blocks changes nothing. |
| `Matching.BlocksInOrder` | scraping-scripts/ftse100_scraper_part_2.py:61-64 | The output of the first k blocks comes first, unchanged, followed by the output of the later blocks. |
| `Matching.JoinMultiplicity` | scraping-scripts/ftse100_scraper_part_2.py:59-64 | An output row occurs (count of its (Date, Company) among the walked rows) × (count of its (Company, Symbol) among the symbols) times. So every output row pairs a walked row with a symbols row of the same company. A walked row contributes one output row per matching symbols row, or none if there is no match. |
| `Matching.MatchCompanySymbol` | scraping-scripts/ftse100_scraper_part_2.py:49-67 | The loop over `len // 100` blocks, which appends each block's merge to the accumulator, returns exactly the reference walk `ChunkedJoin`. |
| `Matching.TrailingRowDropped` | scraping-scripts/ftse100_scraper_part_2.py:61 | Take one whole block followed by a row that is not in it. That row's match is missing from the walk's result, although a join of the whole table contains it. |
| `Matching.MatchAllCompanySymbols` | scraping-scripts/ftse100_scraper_part_2.py:56 | The corrected walk, which ends with a shorter last block, returns the join of the whole table. Every row's multiplicity is the product of its constituent and symbols counts. |

## Findings

| source | as written | input that shows it | evidently intended | confidence | as-written member | corrected member |
|---|---|---|---|---|---|---|
| scraping-scripts/ftse100_scraper_part_2.py:61 | `for i in range(int(len(constituents)//100))` walks only whole blocks of 100 rows. The last `len % 100` rows are never merged. | 101 rows, where row 100 is the only row of a company that has a symbol. Its (Date, Company, Symbol) row is absent from the result. | Per the docstring (line 56), all input constituents matched with their symbols. The last block should be a shorter one. | medium; not executed | `Matching.TrailingRowDropped` | `Matching.MatchAllCompanySymbols` |

`Matching.MatchCompanySymbol` still models the code as written. The corrected
walk sits beside it, and nothing else in the model depends on either.

## Left out

- `scrape_constituents_symbols` and `scrape_daily_returns` (lines 70-142) are not modelled. They are remote searches against investing.com through the `investpy` library, with catch-all exception handling. The daily "Change Pct" values and their outer merge on Date are floating-point market data from that service.
- `main` (lines 145-165) is not modelled. It does CSV reading and writing and progress messages, and its `dd/mm/yyyy` dates never reach the month functions. The progress `print`s in `match_company_symbol` are also left out.
- The rebuild of monthly index membership is not modelled. A separate R script does it and writes `historical_consts.csv`, which `main` reads at lines 148-149. That script is not part of this model.
- `Dates.ParseDate` is stricter than `strptime("%Y-%m-%d")`. It requires two-digit months and days, so it rejects the single-digit and space-padded forms that `strptime` accepts. All such inputs are reported as errors, and the other leniencies of Python's parser are not modelled.
- `Constituents.CommonConstituentsOn` does not model the order of the returned symbols. It lists them in order of last occurrence in the Symbol column, whereas pandas sorts them by count and leaves ties unspecified. Only membership and absence of duplicates are claimed.
- `Constituents.CommonConstituentsOn` models `.loc[start:end]` as an inclusive date filter. That is pandas' behaviour on a sorted date index. Unsorted indexes and timestamps with a time of day are not modelled.
- `Constituents.CommonConstituents` does not distinguish the exception pandas raises for a malformed slice bound from the one `strptime` raises. Both are a single error that carries the offending text.
- `Matching.Merge` fixes one row order inside a merged block: left rows in order, and for each, matching symbols rows in table order. pandas' order within a join depends on its version. The sequence equalities of `Matching.MergeAppend`, `Matching.ChunkedJoinIsMergeOfWalkedPrefix` and `Matching.MatchAllCompanySymbols` depend on that chosen order; for pandas they hold only as multisets. `Matching.BlocksInOrder` and `Matching.TrailingPartialBlockIgnored` compare concatenations of the same per-block merges, so they hold for pandas as sequence equalities under any order inside a block. The order-free claims are `Matching.MergeCounts` and `Matching.JoinMultiplicity`. `Matching.MatchCompanySymbol` equals `ChunkedJoin` under any intra-block order, because both are built from the same `Merge`.
- `Matching.Merge` does not model pandas joining missing (NaN) Company keys to each other. Companies are modelled as plain strings.
- DataFrame column dtypes, the index produced by `pd.concat`, and `reset_index` are not modelled.
