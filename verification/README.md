# gopagination: page and filter selection

This project models the selection core of `gopagination.go` and proves its properties. The Go program is an HTTP service that reads `pricelist.csv` on every request and answers with one JSON page of price-list records. The model covers:

- `PriceList` (`/pricelist?getpage=N`): pages over all CSV rows by zero-based row index.
- `PriceListQuery` (`/pricelistquery?getpage=N&querystr=Q`): keeps the rows whose name field (column 1) contains `Q`, compared in lower case. It pages over the 1-based rank of each match.
- `contains`: a set-membership test on a string slice.

The CSV rows are a parameter, `seq<seq<string>>`. So are the parsed page number and the query. Modules:

- `Text`: lower-casing and substring search, standing in for `strings.ToLower` and `strings.Contains`.
- `Window`: page normalisation, the window test `(p-1)*50 < k < p*50`, and its closed form `Positions`.
- `Selection`: output records, the match list and match ranks. It also defines which rows each handler selects and the result of each handler's row loop, `Page(items)` or `Panic`.
- `Properties`: bounds, soundness and completeness, disjointness, edge cases.
- `Handlers`: the two row loops and `contains`, written as the source iterates. Each is proved equal to the definitions in `Selection`.
- `Overflow`: the window as computed on Go's `int`, which is 32 or 64 bits wide depending on the target (see Findings).
- `Scenarios`: worked examples on concrete rows.

The model follows the code as written, on exact integers; where the wrap-around of Go's `int` changes the page, Findings says so:

- A page holds at most 49 rows, because the window is strict on both sides.
- The unfiltered handler never shows row 0, nor any row whose index is a multiple of 50.
- The filtered handler never shows a match whose rank is a multiple of 50.
- Only page 0 is normalised to 1. `strconv.Atoi` gives 0 on a syntax error, so such a page parameter also becomes page 1. An out-of-range parameter is clamped to the ends of `int`'s range: 2^63-1 or -2^63 on a 64-bit target, 2^31-1 or -2^31 on a 32-bit one. Either end selects nothing (`Overflow.ClampedPagesSelectNothing`). With exact integers a negative page selects nothing; the wrap-around that lets some negative pages show rows is under Findings.
- The empty query is not special-cased. It matches every row that has a name field, and the filtered page then holds the indices (page-1)*50 to page*50-2, the last row included.

A row too short to index makes Go panic. The model returns `Panic` in that case instead of excluding such rows by a precondition:

- The unfiltered handler indexes only the rows in its window.
- The filtered handler reads the name field of every row, and all four fields of the matches in its window.

The CSV reader is configured with `FieldsPerRecord = -1` (gopagination.go:101, 168), so it accepts short rows; a handler panics only when it indexes a missing field.

## Model

| member | source | states |
|---|---|---|
| Window.NormalizePage | gopagination.go:112-114 | Page 0 becomes 1 and every other page number, negative ones included, is unchanged; the result is never 0 |
| Window.Positions | gopagination.go:116-118 | The closed-form run of positions a page holds is increasing, contains exactly the positions below n whose number lies strictly inside the window, and has fewer than 50 entries |
| Window.PositionsStep | gopagination.go:116-118 | Scanning one more row extends the closed-form selection by that row exactly when the window test accepts it, the step the loop takes |
| Text.Lower | gopagination.go:184 | Lower-casing keeps the length and maps each character independently: an upper-case ASCII letter becomes its lower-case partner, every other character is kept |
| Text.LowerIdempotent | gopagination.go:184 | Lower-casing twice is lower-casing once, so an already lower-cased name or query is unchanged |
| Text.HasSubstringIff | gopagination.go:184 | The left-to-right substring scan succeeds exactly when the query occurs at some offset of the name |
| Selection.MatchIndices | gopagination.go:182-185 | The match list is increasing and holds exactly the indices of rows whose lower-cased name contains the lower-cased query |
| Selection.MatchPrefix | gopagination.go:184-185 | The matches before the r-th match are exactly the first r matches, so the counter's value at a match is its 1-based rank |
| Selection.ListSelected | gopagination.go:116-118 | A row index is selected by the unfiltered handler exactly when it is below the row count and strictly inside the window of the normalised page; the selection is increasing |
| Selection.QuerySelected | gopagination.go:182-191 | The filtered selection is increasing and every selected row matches the query |
| Properties.QuerySelectedIff | gopagination.go:184-186 | A row is on a filtered page exactly when it matches and its match rank lies strictly inside the window of the normalised page |
| Properties.PageSizeBound | gopagination.go:118 | No page of either handler, and no record list they return, has more than 49 entries |
| Properties.MultiplesOfFiftySkipped | gopagination.go:116-118 | A row whose index is a multiple of 50 (row 0 included) is on no unfiltered page; a match whose rank is a multiple of 50 is on no filtered page |
| Properties.PagesDisjoint | gopagination.go:116-186 | Two pages that differ after normalisation share no row, in either handler |
| Properties.BeyondEndIsEmpty | gopagination.go:118 | A page whose window starts after the last row (unfiltered) or after the last match (filtered) selects nothing |
| Properties.NegativePageIsEmpty | gopagination.go:112-186 | A negative page answers an empty page in the unfiltered handler; the filtered handler answers an empty page unless some row lacks a name field, in which case it panics |
| Properties.PageZeroIsPageOne | gopagination.go:112-114 | Page 0 gives the same result as page 1 in both handlers |
| Properties.FirstPageRows | gopagination.go:116-118 | With at least 50 rows, unfiltered page 1 is exactly rows 1 to 49 in order |
| Properties.OutputCopiesRows | gopagination.go:119-191 | Every returned record copies columns 0, 1 and 2 of its selected row into SPC, SPN and SPPS, in selection order |
| Properties.EmptyQueryMatchesAll | gopagination.go:184 | When every row has a name, the empty query's match list is every row index in order |
| Properties.EmptyQueryShift | gopagination.go:184-186 | With the empty query, every row j, the last included, is on a filtered page exactly when j+1 lies strictly inside the window, so the page holds indices (page-1)*50 to page*50-2; for every row but the last this is when row j+1 is on the same unfiltered page |
| Handlers.PriceList | gopagination.go:111-126 | The row loop answers exactly the unfiltered page of the normalised page, or a panic when a row in the window has fewer than four fields; a page has fewer than 50 records |
| Handlers.PriceListQuery | gopagination.go:178-195 | The row loop answers exactly the filtered page, or a panic on a nameless row or a short in-window match; on success the counter equals the number of matching rows, whatever the page |
| Handlers.ShortRowPanics | gopagination.go:118-122 | A row with fewer than four fields inside the unfiltered window makes the handler panic |
| Handlers.ShortMatchPanics | gopagination.go:184-190 | A matching row with fewer than four fields whose rank is inside the window makes the filtered handler panic |
| Handlers.SliceContains | gopagination.go:141-149 | The map-building lookup answers true exactly when the item is an element of the slice, so never for an empty slice |
| Overflow.AgreesWithoutOverflow | gopagination.go:118-186 | On a 32-bit or a 64-bit target, while neither product overflows `int`, the window the code computes is the exact window |
| Overflow.NegativePageAliasesPageOne | gopagination.go:118-186 | As written, page 1 - 2^63 on a 64-bit target (1 - 2^31 on a 32-bit one) stays negative yet has the window of page 1, while its exact window holds no row index |
| Overflow.ClampedPagesSelectNothing | gopagination.go:118-186 | On a target with a w-bit `int`, w being 32 or 64, the clamped values 2^(w-1)-1 and -2^(w-1) that an out-of-range page parameter parses to contain no row index in their window, as written and exactly |
| Overflow.HugePageShowsRowZero | gopagination.go:118-186 | As written on a 64-bit target, page 7378697629483820647 has a window containing row 0, which no exact window contains |
| Overflow.ThirtyTwoBitTarget | gopagination.go:118-186 | On a 32-bit target, Atoi clamps the two parameters above to -2^31 and 2^31-1, so neither shows a row; there page 1 - 2^31 is the one with page 1's window |
| Scenarios.ApricotMisses | gopagination.go:184 | "apricot" does not match the query "app" |
| Scenarios.FruitMatchIndices | gopagination.go:182-185 | Of the names Apple, apricot, Banana and APPLE PIE, the query "app" matches rows 0 and 3 |
| Scenarios.FruitQuery | gopagination.go:182-191 | Page 1 of the query "app" over those names selects rows 0 and 3 in that order |
| Scenarios.HundredTwentyRows | gopagination.go:116-118 | With 120 rows, unfiltered page 3 is rows 101 to 119 and page 4 is empty |

## Left out

- HTTP routing, `main`, the static file server and the `http.Error` answers are transport, not selection. So is the error answer when `pricelist.csv` cannot be opened or read.
- The gzip response writer and `makeGzipHandler` wrap the response stream only.
- `log_requests` and the `fmt.Println` traces are file and console I/O stamped with the wall clock.
- CSV parsing by `encoding/csv` is a foreign library. Its result is the `rows` parameter.
- `strconv.Atoi` is a foreign library. The page is its integer result. A syntax error gives 0, which normalisation turns into 1. An out-of-range value gives the nearest end of `int`'s range (±2^63 on a 64-bit target, ±2^31 on a 32-bit one, less one at the top), which selects nothing.
- The price `SPP`, parsed by `strconv.ParseFloat` with errors ignored, is floating point. The `Item` record drops it. The access to column 3 is still modelled, because a row shorter than four fields panics there.
- JSON marshalling of the page is a foreign library.
- A price text such as `NaN`, `Inf` or `1e400` on a row the loop emits makes `strconv.ParseFloat` return NaN or an infinity (gopagination.go:122, 190). `json.Marshal` then fails, and the handler answers 405 instead of the page (gopagination.go:129-133, 198-204). The model's `Page(items)` is what the row loop builds; it does not promise this page reaches the client. Floating point and JSON encoding are outside the model.
- `runtime.GOMAXPROCS` and per-request concurrency do not affect what a single request selects.
- The one-element slice `teststring` in `PriceListQuery` is built but never read. `contains` is never called in the source, so it is modelled on its own.
- Text.Lower: lower-cases ASCII letters only, where Go's `strings.ToLower` maps all of Unicode. This is because case mapping tables are outside the model. Strings are also sequences of code points, while Go's are UTF-8 bytes; on valid UTF-8 the substring relation is the same.
- Handlers.PriceListQuery: the counter's final value is stated only when the handler does not panic. A panic aborts the request before the counter is used.
- Handlers.PriceList: a panic is an `Outcome` without Go's message or the row it happened at. The Go runtime and `net/http` turn it into a dropped connection.
- Overflow: the model covers 32-bit and 64-bit `int` only, the two widths Go defines. Which one applies depends on the target the service is built for, which the source does not fix.
- Window.Positions: uses exact integers, like the rest of the model. The wrap-around of `page*50` on a 32-bit or 64-bit `int` is modelled only in module `Overflow` (see Findings).

## Findings

| source | as written | input that shows it | evidently intended | confidence | as-written member | corrected member |
|---|---|---|---|---|---|---|
| gopagination.go:118-186 | `(GetPageInt-1)*50` and `GetPageInt*50` are computed in Go's `int` and wrap around | on a 64-bit target, getpage=-9223372036854775807 (on a 32-bit one, getpage=-2147483647): the products wrap to 0 and 50, so this negative page shows page 1 | a negative page selects nothing | high; follows from two's-complement arithmetic; not executed | Overflow.NegativePageAliasesPageOne | Properties.NegativePageIsEmpty |
| gopagination.go:118-186 | the same products wrap for large positive pages | on a 64-bit target, getpage=7378697629483820647: the window becomes (-20, 30), so rows 0..29 are shown, row 0 included | row 0 and multiples of 50 appear on no page | high; follows from two's-complement arithmetic; not executed | Overflow.HugePageShowsRowZero | Properties.MultiplesOfFiftySkipped |
