# Joseph's request handlers, modelled in Dafny

Joseph is a small web front-end for a Calibre library. It has one Go file,
`main.go`. This project models the four pieces of that file that hold real
logic:

- **Download resolver** (`/download/:id`). The handler lists a book's
  directory and picks one file. It tries three filename tiers: lower-cased
  `.kepub.epub`, lower-cased `.kepub`, and `filepath.Ext == ".epub"`. Kobo
  mode (`mode=kepub`) tries the KEPUB tiers first; standard mode tries EPUB
  first. In Kobo mode a bare `.kepub` is offered under the name `.kepub.epub`.
  Module `Download`. It uses `Text`, which holds `strings.ToLower`,
  `HasSuffix`, `Contains` and `filepath.Ext`.
- **Smart crop** (`/cover/:id`). The crop is a 2:3 window centred in the
  decoded cover. Module `SmartCrop`.
- **Cover-thumbnail cache** (`/cover/:id`). A cache hit is served for a year
  with tag H. On a miss the cover is opened, decoded, cropped, resized to
  200x300 and encoded as JPEG. The result is written to the cache (tag C),
  or not when the cache file cannot be created (tag X). A missing cover
  gives 404 and an undecodable one gives 400. Module `CoverCache`:
  - `Serve` is the specification function. It takes the cache before the
    request and returns the response and the cache after it.
  - `Disk` is a class whose `cache` field `GetCover` updates step by step.
    `GetCover` is proved equal to `Serve`.
- **Listing** (`/`). Module `Listing` covers:
  - the page size from the User-Agent (8 on phones, tablets and e-readers,
    24 otherwise);
  - the page number from `strconv.Atoi` and its 64-bit offset;
  - the filtered SQL, modelled as fragments and `?` placeholders with their
    bound arguments;
  - the `pageSize+1` fetch that decides whether there is a next page.

The database, the file system and the image libraries are parameters:

- a function from query and arguments to rows;
- maps from file names to bytes, plus whether `os.Create` succeeds;
- a record of the decode, sub-image, resize and encode functions.

## Model

| member | source | states |
|---|---|---|
| `Text.Lower` | main.go:433 | `strings.ToLower` on ASCII letters, defined character by character; it has no contract of its own, and `LowerIsAsciiLowerCase` states its meaning |
| `Text.LowerIsAsciiLowerCase` | main.go:433 | lower-casing keeps the length, leaves no 'A'..'Z', and changes a character only by mapping 'A'..'Z' to 'a'..'z' |
| `Text.HasSuffix` | main.go:436 | `strings.HasSuffix`, defined by comparing the tail; it has no contract of its own, and `HasSuffixIsConcat` states its meaning |
| `Text.HasSuffixIsConcat` | main.go:436 | a string has a suffix exactly when it is some prefix followed by that suffix |
| `Text.Contains` | main.go:119-124 | `strings.Contains`, defined by a match at some position; it has no contract of its own, and `ContainsIsInfix` states its meaning |
| `Text.ContainsIsInfix` | main.go:119-124 | a string contains sub exactly when it is some prefix, then sub, then some rest |
| `Text.ExtFrom` | main.go:390 | `filepath.Ext` of a name is empty exactly when every '.' has a '/' after it (the last element has no dot); otherwise it is the suffix from the last '.', with no later '.' or '/' |
| `Text.ExtIsSuffix` | main.go:400 | for an extension such as ".epub", `filepath.Ext(name) == ext` holds exactly when the name ends in ext (case-sensitive) |
| `Download.Matches` | main.go:369-421 | the three tier tests: the lower-cased name ends in ".kepub.epub", the lower-cased name ends in ".kepub", or `filepath.Ext(name) == ".epub"` on the name as it is (case-sensitive); `ExtIsSuffix` and `LowerIsAsciiLowerCase` state what the tests mean |
| `Download.Priority` | main.go:369-421 | the two tier orders: Kobo mode `.kepub.epub`, `.kepub`, `.epub`; standard mode `.epub`, `.kepub.epub`, `.kepub`; `PriorityIsPermutation` states their shape |
| `Download.PriorityIsPermutation` | main.go:369-421 | each mode tries every tier exactly once, and only standard mode starts with the `.epub` tier |
| `Download.FirstMatch` | main.go:372-377 | one tier loop's result, when there is one, is a listed name that passes the tier |
| `Download.FirstByPriority` | main.go:369-422 | trying tiers in order yields, when anything, a listed name that passes one of the tiers |
| `Download.Select` | main.go:369-427 | the file the handler serves, when there is one, is a listed name that passes one of the mode's three tiers |
| `Download.FirstMatchNone` | main.go:372-377 | one tier loop finds nothing exactly when no listed name passes the tier |
| `Download.FirstMatchSome` | main.go:372-377 | when position i holds the first name passing the tier, the loop finds that name (the `break` on the first hit) |
| `Download.FirstPassing` | main.go:372-377 | if any listed name passes a tier, some position holds the first passing name |
| `Download.FirstMatchIsFirst` | main.go:372-377 | the tier loop's result is None when nothing passes, and otherwise the name at the first passing position |
| `Download.FirstInTier` | main.go:399-404 | the `for … range files` loop with `break` returns the first name passing the tier, or nothing |
| `Download.ChosenByHead` | main.go:369-377 | when the first tier finds a name, that name is the only one the policy chooses |
| `Download.ChosenByTail` | main.go:378-395 | when the first tier finds nothing (`targetFile == ""`), the choice is made by the remaining tiers in order |
| `Download.FirstByPriorityIsChosen` | main.go:369-422 | trying tiers in order yields nothing exactly when no name passes any tier, and yields n exactly when some tier finds n first and no earlier tier passes any name |
| `Download.Cascade` | main.go:396-421 | three loops, each run only when the previous found nothing, equal trying the three tiers in order |
| `Download.SelectIsChosen` | main.go:369-422 | Kobo mode ranks `.kepub.epub`, `.kepub`, `.epub`; standard mode ranks `.epub`, `.kepub.epub`, `.kepub`; the served file is the first name of the first tier that finds one, and there is none exactly when no name passes any tier |
| `Download.Rename` | main.go:429-439 | in Kobo mode a name whose lower-cased form ends in ".kepub" keeps everything before its last six characters and gains ".kepub.epub" (5 characters longer); any other name, and every name in standard mode, is unchanged |
| `Download.RenameIdempotent` | main.go:432-438 | renaming an already renamed file changes nothing |
| `Download.LowerKeepsEpub` | main.go:433 | a name ending in ".epub" still ends in ".epub" once lower-cased |
| `Download.KoboServedNameIsEpub` | main.go:369-439 | whatever file Kobo mode serves, its offered name ends in ".epub", ignoring case |
| `Download.EpubTierNameIsEpub` | main.go:369-413 | a name passing the `.kepub.epub` tier or the `.epub` tier ends in ".epub" once lower-cased |
| `Download.LowerKepubEpubIsEpub` | main.go:399-413 | a name ending exactly in ".kepub.epub" already passes the ".epub" tier |
| `Download.StandardSecondTierIsMixedCase` | main.go:396-413 | in standard mode, when the `.epub` tier finds nothing and the `.kepub.epub` tier finds n, n is served, fails the `.epub` test, and does not end in lower-case ".epub", as "X.KEPUB.EPUB" does not |
| `Download.BothFormatsStandard` | main.go:396-404 | with "x.epub" listed before a ".kepub.epub", standard mode serves the EPUB under its own name |
| `Download.BothFormatsKobo` | main.go:369-377 | with the same listing, Kobo mode serves the ".kepub.epub" under its own name |
| `Download.BareKepubListing` | main.go:369-439 | a directory holding only a ".kepub" is served in both modes; Kobo mode offers it as ".kepub.epub" |
| `Download.HandleDownload` | main.go:360-443 | 404 "Fichier introuvable" exactly when the policy selects nothing; otherwise an attachment of the selected listed file under its renamed name |
| `SmartCrop.GoDiv` | main.go:326 | Go's truncating integer division agrees with Euclidean division for non-negative operands |
| `SmartCrop.IsWide` | main.go:321-324 | the integer test `3*w > 2*h` standing in for `currentRatio > targetRatio`; `IsWideIsRatioTest` states its meaning |
| `SmartCrop.IsWideIsRatioTest` | main.go:321-324 | for a positive height, `3*w > 2*h` holds exactly when w/h > 2/3 in exact real arithmetic |
| `SmartCrop.CropRect` | main.go:316-336 | the window lies inside the image. A wider-than-2:3 image keeps its full height, is ⌊2h/3⌋ wide, and is centred left to right within one pixel. Any other image keeps its full width, is ⌊3w/2⌋ high, and is centred top to bottom. The window is 2:3 up to the one-pixel truncation |
| `SmartCrop.OnRatioKeepsWholeImage` | main.go:324-334 | an image already 2:3 is kept whole (the ratio test is strict) |
| `SmartCrop.CropNonEmpty` | main.go:316-336 | an image at least one pixel wide and two high gives a non-empty window |
| `SmartCrop.SingleRowGivesEmptyWindow` | main.go:324-327 | a one-pixel-high image gives a window with no column |
| `CoverCache.CacheKey` | main.go:286 | the cache file of a book is its id followed by "_150.jpg" |
| `CoverCache.CacheKeyInjective` | main.go:286 | distinct ids have distinct cache files |
| `CoverCache.Thumbnail` | main.go:316-346 | the derived cover: the `CropRect` window of the decoded image, resized to 200x300 and JPEG-encoded at quality 85; it has no contract of its own, and `DerivedThumbnailIsServed` states how it is served |
| `CoverCache.Serve` | main.go:278-357 | cache entries are never changed or removed, and at most this id's entry is added. H exactly when the entry exists, served with the cached bytes. The cache changes exactly on C, and then holds the served bytes. Codes are 200, 404 or 400, and only 200 has a body |
| `CoverCache.HitServesCachedBytes` | main.go:288-294 | a hit answers 200, tag H, a one-year Cache-Control and the cached bytes, and writes nothing |
| `CoverCache.MissingCoverIsNotFound` | main.go:296-306 | a miss whose cover cannot be opened answers 404, tag X, a one-week Cache-Control, no body, and caches nothing |
| `CoverCache.UndecodableCoverIsBadRequest` | main.go:309-314 | a miss whose cover does not decode answers 400, tag X, and caches nothing |
| `CoverCache.DerivedThumbnailIsServed` | main.go:316-356 | a decodable cover is served as its cropped, resized, quality-85 thumbnail. The cache gains that entry (C) when the file can be created, and is unchanged (X) when it cannot |
| `CoverCache.SecondRequestHits` | main.go:286-294 | after a request that cached the thumbnail, the next request for the id is a hit with byte-identical output, whatever the cover, path or file creation |
| `CoverCache.Disk.constructor` | main.go:76-78 | the disk starts with any cache already present, since the cache directory survives restarts, and with the given covers |
| `CoverCache.Disk.GetCover` | main.go:278-357 | the step-by-step handler's response and new cache are exactly those of `Serve` on the old cache |
| `Listing.PageSize` | main.go:113-128 | the page size is 8 exactly when the lower-cased User-Agent contains one of "kobo", "mobile", "android", "kindle", "ipad", "iphone"; otherwise it is 24 |
| `Listing.PageSizeIgnoresCase` | main.go:118-124 | the keyword test ignores case |
| `Listing.Wrap64` | main.go:134 | Go's 64-bit int arithmetic: the result lies in the int64 range, is congruent to the exact value modulo 2^64, and equals it when that fits |
| `Listing.Scan` | main.go:130 | the digit loop of `strconv.ParseUint`: a non-digit is a syntax error, and a digit that takes the value past 2^64-1 is a range error at once |
| `Listing.DigitsValuePrefix` | main.go:130 | a longer run of digits has at least the value of its prefix |
| `Listing.ScanDigits` | main.go:130 | reading digits that stay within 2^64-1 carries the decimal value of the prefix read |
| `Listing.ScanOverflows` | main.go:130 | once a leading run of digits passes 2^64-1, the scan ends in a range error |
| `Listing.ParseUintValue` | main.go:130 | a run of digits within 2^64-1 parses to its decimal value |
| `Listing.ParseUintSyntax` | main.go:130 | a non-digit reached before the value passes 2^64-1 is a syntax error |
| `Listing.ParseUintRange` | main.go:130 | a leading run of digits past 2^64-1 is a range error, whatever follows it |
| `Listing.Atoi` | main.go:130 | `strconv.Atoi` with the error dropped returns a value in the int64 range, and 0 when nothing follows the optional sign |
| `Listing.AtoiExact` | main.go:130 | an optional sign and digits whose value fits give that value, negated after '-' |
| `Listing.AtoiSaturates` | main.go:130 | an optional sign and digits whose value does not fit give the int64 bound of the sign |
| `Listing.AtoiOverflowIgnoresRest` | main.go:130 | a leading digit run past 2^64-1 gives the int64 bound of the sign even when a non-digit follows, for example "99999999999999999999x" |
| `Listing.AtoiSyntaxIsZero` | main.go:130 | a non-digit reached before the value passes 2^64-1 gives 0 |
| `Listing.PageFromQuery` | main.go:130-133 | the page is at least 1 and at most the largest int64; it equals the parsed number whenever that is at least 1, and is exactly 1 when the parsed number is below 1 (unparseable, zero or negative) |
| `Listing.Offset` | main.go:134 | the offset as written: in the int64 range and congruent to `(page-1)*pageSize` modulo 2^64 |
| `Listing.HugePageGivesNegativeOffset` | main.go:130-134 | as written, page 2^60+1 with the limited page size 8 gives offset -2^63 |
| `Listing.SaturatedPageWrapsNextPage` | main.go:217 | as written, when the parsed page is the largest int64, `page + 1` for "NextPage" wraps to -2^63 |
| `Listing.BoundedNextPageFits` | main.go:217 | with the corrected page and either page size, `page + 1` fits in an int64 and is at least 2 |
| `Listing.LastPage` | main.go:134 | the largest page whose offset `(page-1)*pageSize` fits in an int64 |
| `Listing.BoundedPage` | main.go:130-134 | the corrected page is between 1 and LastPage; it equals the parsed page whenever that is not beyond LastPage, and is LastPage otherwise |
| `Listing.OffsetExact` | main.go:134 | up to LastPage, the 64-bit offset is the exact, non-negative `(page-1)*pageSize` |
| `Listing.BoundedPageOffset` | main.go:130-134 | with the corrected page, the offset never wraps and is never negative |
| `Listing.HolesAppend` | main.go:149-178 | appending SQL text adds the placeholders of both parts |
| `Listing.FilterArgs` | main.go:152-163 | the filter arguments are all strings: "%q%" twice for a search, then the author id, then the series id, each present only when its parameter is non-empty |
| `Listing.AddClause` | main.go:152-163 | appending a clause and its arguments keeps the balance between placeholders and bound arguments |
| `Listing.AppendFilters` | main.go:149-163 | after the optional title/author, author-id and series-id filters, the query starts with the base SELECT and has exactly one argument per placeholder: two "%q%" for a search, then the author id, then the series id, each present only when its parameter is non-empty |
| `Listing.BuildQuery` | main.go:149-178 | the full query has one argument per placeholder, and its arguments are the filter arguments followed by `pageSize+1` and the offset |
| `Listing.CollectPage` | main.go:187-208 | there is a next page exactly when more than pageSize rows came back, and the page is the first pageSize rows (or all of them) in order |
| `Listing.HandleIndex` | main.go:106-220 | the query is balanced, and its arguments are the q, author_id and series_id filter arguments followed by `pageSize+1` and the exact offset of the corrected page. A database error answers 500 "Erreur DB: " + message. Otherwise the view holds the leading min(pageSize, rows) rows, the page, page-1 and page+1, the next-page flag, the filters echoed, and search shown exactly when `search_mode` is "true" |

## Left out

- `strings.ToLower` is modelled on ASCII letters only. Go also lower-cases
  other Unicode letters, for example the Kelvin sign. Those change a string's
  byte length, and then `filename[:len(filename)-6]` slices bytes, not
  characters.
- The crop uses exact integer forms instead of float64 arithmetic:
  `3*w > 2*h`, `(2*h)/3` and `(3*w)/2`. They replace `currentRatio >
  targetRatio`, `int(float64(height)*targetRatio)` and
  `int(float64(width)/targetRatio)`. Zero dimensions take the same branch as
  Go's Inf/NaN comparisons. Agreement for very large dimensions (near 2^50),
  where float64 rounding could differ, is not proved.
- The crop assumes image bounds start at the origin, as decoded images do.
  `image.Rect` with absolute coordinates on an offset image is not modelled.
- `SubImager` is not modelled separately. `lib.subImage` stands for either
  `SubImage` or returning the image unchanged.
- Decoding, Lanczos resizing and JPEG encoding are foreign library calls and
  appear as fields of `ImageLib`. Encoding is assumed to give the same bytes
  both times it runs on one miss.
- Errors from `jpeg.Encode`, `out.Close` and partial cache writes are
  ignored by the source. The model writes the whole thumbnail whenever
  `os.Create` succeeds.
- `os.MkdirAll` of the cache directory is not modelled. Its error is ignored
  by the source, and a failure shows up as `os.Create` failing.
- `os.Stat` also succeeds on a directory named like the cache file. The
  model treats the cache as a map from file names to bytes.
- `filepath.Join` and `filepath.Base` are not modelled. Entry names from
  `os.ReadDir` hold no '/', so `Base(Join(dir, name))` is the name.
  `Response.file` holds the entry name rather than the joined path.
- The directory listing is taken in any order. Go's `os.ReadDir` returns
  entries sorted by name and nothing when the directory cannot be read; a
  partial listing on a later read error is not modelled.
- The Content-Disposition header is modelled by the filename it carries,
  without its quoting.
- The SQL text is modelled as fragments. The fixed base SELECT … FROM …
  WHERE is one `BaseSelect` fragment holding no placeholder. The SQL's
  meaning is not modelled: joins, GROUP_CONCAT, LIKE matching, ordering.
  The database is a function from query and arguments to rows.
- `rows.Scan`, its ignored error and the NULL handling of the series
  columns are not modelled. A row arrives as a `Book` value.
- Listing.HandleIndex: uses the corrected page (`BoundedPage`) rather than
  the wrapping one, so neither its offset nor its `page + 1` ("NextPage")
  wraps. The as-written offset is kept in `Listing.Offset` and
  `Listing.HugePageGivesNegativeOffset`; the as-written wrap of `page + 1`
  is stated by `Listing.SaturatedPageWrapsNextPage`.
- `strconv.Atoi` is Go's standard library, not part of `main.go`. `Listing.Scan`
  follows its ParseUint loop: digits read left to right, an overflow past
  2^64-1 reported at the digit that causes it. Go strings are bytes, and the
  model reads characters; a non-ASCII character is a non-digit either way.
- Template rendering, routing, the other routes (`/book/:id`, static files),
  `CompactLogger`, `getEnv`, database opening and `main` are not part of
  this model.
- Concurrency is not modelled. Two simultaneous misses for one cover both
  derive and write the thumbnail.

## Findings

| source | as written | input that shows it | evidently intended | confidence | as-written member | corrected member |
|---|---|---|---|---|---|---|
| main.go:130-134 | `offset := (page - 1) * pageSize` in 64-bit int, with `page` only raised to at least 1 | `page=1152921504606846977` (2^60+1) with a Kobo User-Agent (page size 8): the offset wraps to -2^63 and reaches `OFFSET ?` negative | the page is capped so the offset is the exact, non-negative product | not executed | `Listing.HugePageGivesNegativeOffset` | `Listing.BoundedPageOffset` |
| main.go:217 | `"NextPage": page + 1` in 64-bit int, after `page` is taken from `strconv.Atoi` unbounded | `page=9223372036854775807` (or any longer digit run, which `Atoi` saturates): the next-page link points to page -9223372036854775808 | the page is capped so that `page + 1` is a valid page | not executed | `Listing.SaturatedPageWrapsNextPage` | `Listing.BoundedNextPageFits` |
