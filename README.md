# SEO keyword planner: list and table core

`bulk_ai.py` is a command-line tool that plans the pages of a website for a
topic. It asks a language model for child pages and adds pages typed by
hand. It then fetches a keyword table for every page from a keyword service,
and writes a spreadsheet. The spreadsheet has an "Index" sheet (one row per
page with its search volume and two projections, sorted by volume, then one
"Total" row) and one sheet per page.

This project models the deterministic core of that tool and proves what it
guarantees:

- `Text` gives ASCII versions of `str.lower`, `str.strip`, `str.replace`
  and `str.split`. It also defines `Join`, the inverse of `split(",")`, to
  pin down the split with two round trips; the source never joins.
- `Pages` covers four pieces:
  - the manual page-list parser `parse_pages_input`;
  - the child-page clamp;
  - the case-insensitive merge `merge_pages`, written as its two nested
    loops and proved equal to a deduplicate-then-truncate specification;
  - the worksheet name `page[:31]`.
- `Keywords` covers the keyword table, the volume-column lookup over three
  aliases, the per-page volume, and the fetch loop of
  `progress_fetch_keywords`, which fills an insertion-ordered dictionary.
- `Summary` builds the index sheet. It sorts by volume, adds the 10% and 4%
  projections (signups from the rounded traffic), and appends the
  column-wise "Total" row.
- `Plan` runs `main` from the clamp to the sheet names.

The keyword service is a function parameter `fetch: string -> Table`. The
two projections are function parameters of `BuildIndex`. `Summary` also
gives exact versions: `PotentialTraffic` and `EstSignups` round a rational
half to even, which is what pandas `.round()` does.

Four behaviours of the code are easy to misread:

- `int("abc")` for the child limit raises. No default is applied. The
  model takes the limit as an integer.
- `sort_values` uses a sort that is not stable. Only non-increasing volume
  is promised, not the order of ties.
- `max_total = 0` means no cap, because the test is on truthiness. A
  negative `max_total` stops the merge after the first kept page. So the
  length is not at most `k` for every `k >= 0`: it fails for `k = 0`
  (`CapOf`).
- An empty set of fetched pages makes the index construction raise
  `KeyError` (see Findings). `print_summary` (bulk_ai.py:148-153) counts
  `len(index_df) - 1` pages and reads the "Total" row, so a sheet holding
  only that row is what the code expects.

The model follows the code in the first three. In the fourth, `BuildIndex`
and `Plan.Run` use the corrected index; `SortRowsAsWritten` models the code
as written.

## Model

| member | source | states |
|---|---|---|
| Text.Lower | bulk_ai.py:93 | `x.lower()` keeps the length and folds each ASCII capital to its lowercase letter, leaving every other character alone |
| Text.Strip | bulk_ai.py:82 | the stripped string has whitespace at neither end |
| Text.StripSlice | bulk_ai.py:82 | `p.strip()` is one contiguous piece of `p`, and only whitespace is cut off before and after it |
| Text.StripChars | bulk_ai.py:82 | stripping introduces no character that was not in the piece |
| Text.StripStripped | bulk_ai.py:82 | a string with no whitespace on either end is its own strip |
| Text.Replace | bulk_ai.py:82 | `s.replace(";", ",")` changes exactly the `;` characters, and none is left |
| Text.Split | bulk_ai.py:82 | `split(",")` gives at least one piece; no piece contains the separator; every character of a piece comes from the input |
| Text.Join | bulk_ai.py:82 | the reference inverse of `split(",")`, which the source never calls: every character of a join is the separator or comes from a piece |
| Text.JoinSplit | bulk_ai.py:82 | joining the pieces of a split gives back the input |
| Text.SplitJoin | bulk_ai.py:82 | splitting a join of separator-free pieces gives back the pieces |
| Pages.StripAll | bulk_ai.py:82 | `[p.strip() for p in parts]` strips every part and keeps their number |
| Pages.NonEmptyOnly | bulk_ai.py:83 | `[p for p in parts if p]` keeps only non-empty parts, loses no non-empty part, and is the identity when no part is empty; one part is kept exactly when it is non-empty |
| Pages.NonEmptyOnlyAppend | bulk_ai.py:83 | the filter works part by part, so it keeps the order of the parts and repeated parts |
| Pages.ParsePagesInput | bulk_ai.py:79-83 | empty input gives `[]`; every returned page is non-empty, has no whitespace at either end and contains neither `,` nor `;` |
| Pages.ParseJoinPieces | bulk_ai.py:79-83 | pieces free of `,` and `;`, padded or blank, joined with commas, parse into the stripped non-blank pieces, in order and with repetitions |
| Pages.SemicolonsAreCommas | bulk_ai.py:82 | a `;` separates pages exactly as a `,` does: replacing every `;` by `,` beforehand leaves the parse unchanged, for every input |
| Pages.ParseSemicolonJoin | bulk_ai.py:79-83 | pieces free of `,` and `;` joined with semicolons parse into the stripped non-blank pieces, in order, as with commas |
| Text.ReplaceJoin | bulk_ai.py:82 | replacing a separator no piece contains turns the join with it into the join with the replacement |
| Pages.ParseJoin | bulk_ai.py:79-83 | clean pages joined with commas parse back into the same list |
| Pages.ClampChildren | bulk_ai.py:33 | `max(1, min(n, 50))` lies in [1, 50]; it is `n` inside that range, 1 below it and 50 above it |
| Pages.CapOf | bulk_ai.py:97 | `None` and 0 set no cap; a positive `k` caps at `k`; a negative `k` caps at 1, because `len(merged) >= k` holds as soon as one page is kept |
| Pages.Truncate | bulk_ai.py:97-98 | the capped result is a prefix of the uncapped one, with length `min(len, cap)` |
| Pages.MergeSpec | bulk_ai.py:86-99 | what `merge_pages` returns: a prefix of the uncapped merge `Dedup(manual + gpt_pages)`, no longer than a cap; MergePages is proved equal to it, and the meaning of `Dedup` (the uncapped merge, one entry at a time) is stated by DedupIsFirstOccurrences, DedupKeys and DedupDistinct |
| Pages.FirstOccurrences | bulk_ai.py:89-96 | strictly increasing positions, exactly the entries that are non-empty with a key not seen before |
| Pages.KeySetMember | bulk_ai.py:93-96 | a key is in the `seen` set of a list exactly when some entry has that lowercase key |
| Pages.NonEmptyKeysMember | bulk_ai.py:90-93 | a key comes from the non-empty entries exactly when some non-empty entry has it |
| Pages.DedupKeys | bulk_ai.py:89-96 | the keys kept by the uncapped merge are exactly the keys of the non-empty entries |
| Pages.DedupDistinct | bulk_ai.py:90-96 | the uncapped merge holds no empty entry and no two entries with equal lowercase keys |
| Pages.DedupPrefix | bulk_ai.py:89-96 | processing more entries only extends what was kept |
| Pages.FirstOccurrenceStep | bulk_ai.py:90-96 | the next entry is a first occurrence exactly when the merge so far keeps it |
| Pages.DedupIsFirstOccurrences | bulk_ai.py:89-96 | the merge is, entry for entry, the first occurrence of each key with that occurrence's casing, in input order |
| Pages.DedupStep | bulk_ai.py:90-96 | one more entry is appended exactly when it is non-empty and its key is new |
| Pages.DedupCapReached | bulk_ai.py:97-98 | once the cap is filled, the entries that follow do not change the capped merge |
| Pages.MergePages | bulk_ai.py:86-99 | the nested loops return exactly the first `cap` first-occurrences of `manual + gpt_pages`; no two results share a lowercase key; no result is empty; a positive `max_total` bounds the length and a negative one bounds it by 1 |
| Pages.MergeList | bulk_ai.py:89-98 | the inner loop over one list continues the merge of the entries before it; when it stops early the cap is exactly reached and the result is a prefix of that merge |
| Pages.MergeDistinct | bulk_ai.py:93-96 | for every cap, no two merged pages have equal lowercase keys and none is empty |
| Pages.MergeFirstOccurrences | bulk_ai.py:89-96 | the merge is an order-preserving subsequence of `manual + gpt_pages`; each entry is the first with its key, in its original casing |
| Pages.MergeComplete | bulk_ai.py:89-99 | with no cap, every non-empty entry of either list has its lowercase key among the results |
| Pages.MergeManualFirst | bulk_ai.py:89 | the manual list is processed first, so, with no cap, the deduplicated manual pages are a prefix of the result |
| Pages.MergeExample | bulk_ai.py:86-99 | "Shoes", "Shoes", "Boots" merged with "boots", "Hats" gives "Shoes", "Boots", "Hats" |
| Pages.SheetName | bulk_ai.py:223 | the sheet name is a prefix of the page of at most 31 characters, and the whole page when it is short enough |
| Pages.SheetNamesCollide | bulk_ai.py:223 | two different pages can get the same sheet name |
| Keywords.FirstPresent | bulk_ai.py:200 | the first alias present in the table's columns, and `None` exactly when no alias is present |
| Keywords.VolumeColumn | bulk_ai.py:200 | `vol_col` is a present alias, and `None` exactly when none of the three aliases is a column |
| Keywords.FillMissing | bulk_ai.py:201 | `fillna(0)` turns missing cells into 0 and keeps the others |
| Keywords.SumNonNegative | bulk_ai.py:201 | a sum of non-negative cells is non-negative |
| Keywords.PageVolumeResolved | bulk_ai.py:200-201 | the volume is the sum of the "volume", else "Search Volume", else "search_volume" column, missing cells counting 0, and 0 with none of them |
| Keywords.PageVolume | bulk_ai.py:201 | `total_volume` is 0 when no alias is present; PageVolumeResolved states it completely |
| Keywords.EmptyTableVolume | bulk_ai.py:200-201 | the empty table a failed fetch returns has volume 0 |
| Keywords.PageVolumeNonNegative | bulk_ai.py:200-201 | non-negative cells give a non-negative page volume |
| Keywords.FetchAll | bulk_ai.py:124-143 | the dictionary has exactly the pages as keys, each mapped to `fetch(page)`, each key listed once, and in page order when the pages are distinct |
| Summary.RoundHalfEven | bulk_ai.py:208-209 | `round(n / d)`: within half of `d` of the exact quotient, and even on a tie |
| Summary.PotentialTraffic | bulk_ai.py:208 | within 0.5 of 10% of the volume, and non-negative for a non-negative volume |
| Summary.EstSignups | bulk_ai.py:209 | within 0.5 of 4% of the rounded traffic, and non-negative for non-negative traffic |
| Summary.InsertByVolume | bulk_ai.py:204 | inserting into a sorted list keeps it sorted and adds exactly that entry |
| Summary.SortByVolume | bulk_ai.py:204 | `sort_values(..., ascending=False)` gives a permutation of the rows in non-increasing volume |
| Summary.Derive | bulk_ai.py:208-209 | a page row keeps page and volume, traffic is `traffic(volume)` and signups come from the rounded traffic |
| Summary.AddDerived | bulk_ai.py:208-209 | the derived columns are added to every row, in the same order |
| Summary.TotalRow | bulk_ai.py:211-216 | the row labelled "Total" with the column sums, all zero for no rows; SortTotal and BuildIndex relate it to the index |
| Summary.InsertTotal | bulk_ai.py:211-216 | inserting an entry adds its derived row to the column totals |
| Summary.SortTotal | bulk_ai.py:204-216 | sorting does not change the "Total" row |
| Summary.CollectEntries | bulk_ai.py:198-202 | the row loop gives one entry per fetched page, in dictionary order, with that page's volume |
| Summary.BuildIndex | bulk_ai.py:198-217 | one row per fetched page, sorted by non-increasing volume, a permutation of the page entries; traffic from the volume and signups from the traffic; then one "Total" row with the column sums, equal to the totals in dictionary order |
| Summary.IndexOfEntries | bulk_ai.py:204-217 | the sorted rows are sorted, a permutation of the entries, and have the same totals |
| Summary.IndexRowsArePages | bulk_ai.py:198-204 | each index row names a fetched page with that page's volume, and every fetched page has a row |
| Summary.SortRowsAsWritten | bulk_ai.py:204 | sorting a frame built from no records raises, and otherwise gives the sorted permutation |
| Summary.EmptyFramesRaise | bulk_ai.py:198-204 | with no fetched page the index construction as written raises |
| Summary.EmptyIndex | bulk_ai.py:211-217 | with no page the index is the single row ("Total", 0, 0, 0) |
| Plan.DistinctKeysDistinct | bulk_ai.py:189 | case-insensitively distinct pages are distinct strings, so the dictionary keeps their order |
| Plan.SheetNames | bulk_ai.py:222-223 | one sheet name per fetched page, in dictionary order, each a prefix of its page of at most 31 characters |
| Plan.Run | bulk_ai.py:179-224 | the generator gets the limit clamped to [1, 50]; the pages are the uncapped merge of the parsed manual list and the generated pages; the tables and index are those of the fetch loop and the index construction, and every page row of the index has traffic PotentialTraffic(volume) and signups EstSignups(traffic); with no page the index is the all-zero "Total" row of the corrected index construction; one sheet name per page |
| Plan.PageRowsDerived | bulk_ai.py:208-209 | helper for `Plan.Run`: the traffic and signups facts `BuildIndex` states of the slice of page rows hold of those rows of the whole index |

## Left out

- The language-model call `gpt()` and its prompt are left out. So are `json.loads` of its reply and the `data.get` defaults. They are foreign calls; the generated pages are an input of `Plan.Run`.
- `get_keywords` is left out: the HTTP request, its status handling and building a table from JSON. `fetch` is a function parameter. A non-200 status or a failure to build the frame gives the empty `Table`.
- Keywords.FetchAll: `fetch` is assumed to return. An exception from `get_keywords` (`requests.post` failing, or `response.json()` on a body that is not JSON, which sits outside the `try`) escapes the loop and ends `main` before the export; that is not modelled.
- Plan.Run: with no page it uses the corrected index construction and returns the all-zero "Total" row, where `main` as written raises `KeyError` at bulk_ai.py:204 (see Findings).
- Console output, the progress bar, `print_summary` and the other `rich` panels are left out. They are presentation only.
- The Excel export is file I/O and is left out. So are the worksheet-name rules of the spreadsheet library (characters it refuses, case-insensitive clashes, what happens when two pages share a sheet). Only `page[:31]` is modelled.
- Keywords.FetchAll: a pure function cannot show how often or in which order `fetch` is called. A page listed twice keeps its first position and its last table; the order of the keys is stated only for distinct pages. `main` passes distinct pages, as `Plan.Run` shows.
- Summary.PotentialTraffic: floating-point `volume * 0.10` is not modelled. The model rounds the exact rational instead, and the two can differ on a tie. The same holds for Summary.EstSignups and `* 0.04`.
- Keywords.PageVolume: cells are integers or missing. Float cells, and the truncation `int()` applies to a float sum, are not modelled.
- Summary.SortByVolume: the order among rows with equal volume is not modelled, because the source's sort is not stable.
- `int(max_children)` is not modelled. It raises on text that is not a number. `Plan.Run` takes the limit as an integer.
- `str.lower` and `str.strip` are modelled on ASCII only. Non-ASCII case folding and Unicode whitespace are not modelled.
- The topic prompt, `topic.strip()` and `main_page` only feed the model call and the console. They are not modelled.

## Findings

| source | as written | input that shows it | evidently intended | confidence | as-written member | corrected member |
|---|---|---|---|---|---|---|
| bulk_ai.py:198-204 | `pd.DataFrame(rows)` built from an empty `rows` has no columns, so `sort_values("Search volume")` raises `KeyError` | no manual pages and a generator reply with no child pages, so there is no fetched page | an index sheet holding only the "Total" row with all-zero fields | medium; not executed | Summary.SortRowsAsWritten, Summary.EmptyFramesRaise | Summary.BuildIndex, Summary.EmptyIndex |
