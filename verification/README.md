# Page segmentation of a classified document archive

This project models the core of the `split_files` step of a document
splitting pipeline, and proves properties of that model. The step receives
the output archive of a page classifier. That archive holds a manifest (one
JSON record per page, with the page number, the job's page total and the
scored classes) and one Textract result per page. The step then does four
things:

- It reconciles the archive into a dictionary of pages. Each page holds its
  manifest record and its OCR text.
- It works out which pages of `1..N` no manifest record accounted for.
- It walks the pages in ascending order and groups them into documents. A page
  whose best class is `FIRST_PAGE` (score at least 0.99) opens a document, and
  a `PAGE` page extends the open one. A page whose best score is below 0.99 is
  reported unprocessed. A page of any other class is skipped.
- It wraps the outcome in an `ACCEPTED` or `REJECTED` response.

The modules follow the source file's functions:

| module | models |
|---|---|
| `Wrappers` | `Option`, `Result`, the exceptions that can escape, and the `str(e)` text of each |
| `PyText` | `str.strip`, `str.endswith`, `split("/")[-1]`, `int()` and `str()` on the strings the code handles |
| `Textract` | `extract_text_from_textract_results` |
| `Seqs` | ordering, filtering and search facts about page-number lists and member lists |
| `Manifest` | the page dictionary, `list.remove`, `parse_manifest` |
| `TopClass` | `max_scored_class` |
| `Grouping` | one turn and the whole loop of `classify_pages`, and the `MIN_CONFIDENCE_SCORE` threshold |
| `Classify` | `classify_pages` over `sorted(pages.keys())` |
| `Entries` | `process_comprehend_data` and `parse_page` |
| `Handler` | `lambda_handler`'s response envelope |

The model follows the code as written, including its sharp edges:
- A `PAGE` page met while no document is open raises `TypeError` (`None["Pages"]`); such a
  page is not dropped. `Classify.ClassifyFails` states exactly when this happens.
- For a manifest read while the unprocessed list is still empty (the first one), a page
  number that is repeated or outside `1..N` raises `ValueError` from `list.remove`.
  `Manifest.ManifestSetArithmetic` states the exact condition. Every `.out` member starts
  again with an unknown total and appends its own `1..N` to the shared list, which still
  holds what earlier manifests left. So a later manifest only raises for a number the list
  no longer holds: a page named once in each of two manifests is accepted, and a repeat or a
  number beyond that manifest's `N` passes while the list still holds a copy of it: when an
  earlier manifest left page 2, a manifest announcing 2 pages is accepted with two records
  for page 2, and when one left page 5, a manifest announcing 2 pages is accepted with a
  record for page 5 (`Manifest.LeftoverAdmitsRepeat`, `Manifest.LeftoverAdmitsBeyondTotal`).
- A page with a Textract result but no manifest record raises `KeyError 'Classes'`.
- A run with no `FIRST_PAGE` returns the document list `[None]`.
- The reported unprocessed pages are not sorted as a whole. They come in the order they
  were left: what the manifests left (ascending when the archive holds one manifest), then
  the below-threshold pages in ascending order (`Handler.UnclassifiedPagesListed`).
- A document's pages ascend and documents do not interleave
  (`Classify.ClassifyDocumentsOrdered`), but a document need not be a contiguous run of
  page numbers: skipped and below-threshold pages can fall between its pages.
- With a single manifest announcing `N` pages, a successful run places every page of
  `1..N` exactly once: in a document, in the unprocessed list, or among the skipped pages
  (`Handler.SingleManifestPartition`). With several manifests this can fail, since a
  page can be both grouped and left over by another manifest.

Scores are modelled as `real`. The only operations on them are `<` and the
maximum.

## Model

| member | source | states |
|---|---|---|
| `PyText.Strip` | functions/split_files/app.py:208 | the result sits inside the input with only whitespace before and after it, and neither starts nor ends with whitespace |
| `PyText.StripUnique` | functions/split_files/app.py:113 | text with non-space ends between two whitespace margins is exactly what `strip()` returns |
| `PyText.StripIdempotent` | functions/split_files/app.py:208 | stripping a stripped text changes nothing |
| `PyText.LastSegment` | functions/split_files/app.py:113 | `split("/")[-1]` is the slash-free suffix of the name, preceded by a slash whenever it is shorter than the name |
| `PyText.LastSegmentOfPath` | functions/split_files/app.py:113 | appending `/` and a slash-free name to any path gives that name back |
| `PyText.ParseInt` | functions/split_files/app.py:113 | `int()` fails with a `ValueError` that quotes the text; it succeeds only on text starting with a digit or sign, and yields a negative value only after `-`; `PyText.ParseIntRejects` says which texts fail |
| `PyText.ParseIntRejects` | functions/split_files/app.py:113 | a text that is empty, holds a character other than a digit, an underscore or a sign in first position, or does not end in a digit, raises `ValueError` quoting it |
| `PyText.ParseIntPositive` | functions/split_files/app.py:113 | a digit string after `+` reads as its decimal value |
| `PyText.NatToString` | functions/split_files/app.py:71 | the decimal digits of a natural number start with `0` only for zero itself |
| `PyText.IntToString` | functions/split_files/app.py:71 | `str(n)` is non-empty, starts with `-` exactly when `n` is negative, contains no slash and has no whitespace at either end |
| `PyText.IntToStringCanonical` | functions/split_files/app.py:71 | `str(n)` is canonical: an optional `-` then digits without a leading zero, and never `-0` |
| `PyText.CanonicalUnique` | functions/split_files/app.py:71 | the only canonical text that `int()` reads as `n` is `str(n)` |
| `PyText.ParseIntRoundTrip` | functions/split_files/app.py:71 | `int(str(n)) == n` for every integer |
| `Textract.ExtractText` | functions/split_files/app.py:198-208 | the text is produced exactly when every `LINE` block has `Text`, fails with `KeyError 'Text'` otherwise, and comes back stripped |
| `Textract.ExtractTextFromTextractResults` | functions/split_files/app.py:198-208 | the accumulating loop yields the reference text (every `LINE` text plus a newline, in block order, stripped) or the same `KeyError` |
| `Textract.LineTextAppend` | functions/split_files/app.py:204-206 | the text of two block lists read one after the other is the two texts concatenated |
| `Textract.NonLineBlockIgnored` | functions/split_files/app.py:204-206 | inserting a block of any other type anywhere changes neither the text nor whether extraction fails |
| `Manifest.Range` | functions/split_files/app.py:131 | `range(1, N + 1)` has `N` entries (none when `N <= 0`) counting up from 1 |
| `Manifest.RemoveFirst` | functions/split_files/app.py:133 | `list.remove` fails with `ValueError` exactly when the value is absent, and otherwise drops only its first occurrence |
| `Manifest.StoreFacts` | functions/split_files/app.py:134 | storing one record files it under its page number, adds that page if new, keeps its OCR and leaves every other page untouched |
| `Manifest.StoreAllFacts` | functions/split_files/app.py:134 | storing the records adds exactly their page numbers, keeps every page's OCR, leaves every other page alone and files each record under its own number |
| `Manifest.ParseLines` | functions/split_files/app.py:125-134 | a successful parse decoded every line and built exactly the dictionary of its stores, in line order |
| `Manifest.ParseManifest` | functions/split_files/app.py:118-134 | on success, the dictionary gains exactly the manifest's page numbers, every page keeps its OCR and pages not named stay untouched; well-formedness is preserved |
| `Manifest.ParseLinesSeeded` | functions/split_files/app.py:125-133 | once the expected pages are seeded, parsing succeeds exactly when every page number is still expected and none repeats, and leaves the expected list minus the numbers seen |
| `Manifest.SeedFromFirstRecord` | functions/split_files/app.py:129-131 | the first record's total seeds `1..N`; later lines run with that total |
| `Manifest.FreshTotalPositive` | functions/split_files/app.py:129-133 | with nothing unprocessed yet, a manifest parses only if its first record announces at least one page, since `range(1, N + 1)` is otherwise empty and `remove` raises |
| `Manifest.ManifestSetArithmetic` | functions/split_files/app.py:123-133 | for a fresh job with total `N`, the manifest parses exactly when every page number lies in `1..N` and none repeats, and leaves `1..N` without the numbers seen, in order |
| `Manifest.ManifestUnprocessedPages` | functions/split_files/app.py:129-133 | what a fresh job's manifest leaves unprocessed is ascending and holds exactly the pages of `1..N` that no record named |
| `Manifest.LastRecordStored` | functions/split_files/app.py:134 | a record whose page no later line repeats is the record stored for that page |
| `Manifest.ManifestStoresRecords` | functions/split_files/app.py:134 | after a fresh job's manifest parses, every record is stored under its page number |
| `Manifest.UnprocessedIgnoresTotals` | functions/split_files/app.py:129-133 | after seeding, failure and the unprocessed list depend only on the lines' page numbers |
| `Manifest.LeftoverAdmitsRepeat` | functions/split_files/app.py:129-133 | a manifest that names a page twice still parses when an earlier manifest left that page over and the page lies within this manifest's own total |
| `Manifest.LeftoverAdmitsBeyondTotal` | functions/split_files/app.py:129-133 | a manifest naming a page beyond its own total still parses when an earlier manifest left that page over |
| `Manifest.LaterTotalsIgnored` | functions/split_files/app.py:129-131 | when the first record's total is not negative, only that total matters and later records may declare any other; a negative first total leaves the total unknown, so the next record seeds again |
| `TopClass.MaxScoredClass` | functions/split_files/app.py:187-195 | a page without a manifest record raises `KeyError 'Classes'`, an empty class list raises `ValueError`, and otherwise the result is the first entry of highest score |
| `TopClass.TopScoreIsMaximal` | functions/split_files/app.py:193 | no class of the page scores above the chosen one |
| `TopClass.FirstMaximumWins` | functions/split_files/app.py:193 | on a tie, the entry listed first is chosen |
| `Grouping.PageVerdict` | functions/split_files/app.py:149-165 | a page's branch is known only for a page with a manifest record; `Grouping.VerdictOfTopClass` gives the branch itself |
| `Grouping.Step` | functions/split_files/app.py:148-164 | one turn raises exactly when the page's class lookup raises or an accepted `PAGE` finds no open document, raising the lookup's exception or `TypeError` for `None["Pages"]` respectively, and it never changes a closed document |
| `Grouping.Run` | functions/split_files/app.py:147-165 | the loop never changes a document once it is closed |
| `Grouping.VerdictFails` | functions/split_files/app.py:149 | a page's turn raises exactly when its class lookup does, with `KeyError 'Classes'` or `ValueError` |
| `Grouping.ThresholdBoundary` | functions/split_files/app.py:151-153 | a page is reported unprocessed exactly when every class scores below 0.99, so a top score of exactly 0.99 is accepted |
| `Grouping.VerdictOfTopClass` | functions/split_files/app.py:149-165 | the branch taken depends on the first highest-scored class alone: below 0.99, `FIRST_PAGE`, `PAGE` or any other name |
| `Grouping.RunFails` | functions/split_files/app.py:147-165 | the loop raises exactly when some page's class lookup raises or some accepted `PAGE` is met while no document is open |
| `Grouping.RunError` | functions/split_files/app.py:147-165 | when the loop raises, it raises the exception of the first page whose turn breaks: that page's lookup exception, or `TypeError` for an orphan `PAGE` |
| `Grouping.RunGroups` | functions/split_files/app.py:154-164 | the pages that end up in documents are exactly the accepted `FIRST_PAGE` and `PAGE` pages, in visiting order |
| `Grouping.RunUnprocessed` | functions/split_files/app.py:151-153 | the unprocessed list grows by the numbers of the below-threshold pages, in visiting order, and by nothing else |
| `Grouping.RunCounts` | functions/split_files/app.py:154-162 | every accepted `FIRST_PAGE` adds one document, and a document is open at the end unless none ever opened |
| `Grouping.RunShapes` | functions/split_files/app.py:154-164 | every document starts with an accepted `FIRST_PAGE`, continues with accepted `PAGE` pages only and carries the event's execution id and source |
| `Classify.ClassifyPages` | functions/split_files/app.py:137-168 | the unprocessed list passed in is only appended to: it is a prefix of the list that comes back |
| `Classify.Finished` | functions/split_files/app.py:166 | the returned list is the closed documents in order, followed by the open one or `None` |
| `Classify.SortedKeys` | functions/split_files/app.py:147 | `sorted(pages.keys())` is strictly ascending and holds exactly the keys |
| `Classify.ClassifyFails` | functions/split_files/app.py:137-168 | the call raises exactly when some page has no usable classes, or is an accepted `PAGE` with no accepted `FIRST_PAGE` at a smaller page number |
| `Classify.ClassifyError` | functions/split_files/app.py:137-168 | when the call raises, the exception is the one raised by the smallest page that has no usable classes or is an accepted `PAGE` with no accepted `FIRST_PAGE` below it |
| `Classify.ClassifyResolves` | functions/split_files/app.py:149 | a successful call found usable classes on every page |
| `Classify.ClassifyUnprocessed` | functions/split_files/app.py:151-153 | the returned list is the one passed in followed by exactly the below-threshold pages, in ascending order |
| `Classify.ClassifyGroupedPages` | functions/split_files/app.py:147-164 | the documents' pages, read in order, are exactly the accepted `FIRST_PAGE` and `PAGE` pages, in ascending order, and each page a document holds is the dictionary's entry for its number, manifest record and OCR text alike |
| `Classify.ClassifyDocuments` | functions/split_files/app.py:154-166 | there is one document per accepted `FIRST_PAGE`, or the list is `[None]` when there is none; only the last entry can be `None`; every document is well shaped |
| `Classify.ClassifyDocumentsOrdered` | functions/split_files/app.py:147-166 | each document's page numbers ascend, and every page of an earlier document precedes every page of a later one |
| `Classify.ClassifyPartition` | functions/split_files/app.py:147-165 | every page has a manifest record and lands in exactly one of: a document, the below-threshold pages appended to the list, or the skipped classes; only pages of the dictionary land in either |
| `Entries.PageNumberOf` | functions/split_files/app.py:113 | when the number does not parse, the error is a `ValueError` quoting the stripped last segment of the name; `Entries.PageNameRejects` and `Entries.PageNameRoundTrip` say which names fail and which succeed |
| `Entries.PageNameRejects` | functions/split_files/app.py:113 | a name whose stripped last segment is not a signed run of digits and underscores ending in a digit raises `ValueError` quoting that segment |
| `Entries.PageNameRoundTrip` | functions/split_files/app.py:113 | a member named `<dir>/<n>`, whitespace around the number allowed, is page `n` |
| `Entries.SetText` | functions/split_files/app.py:114 | writing the OCR of page `n` adds `n` to the dictionary and leaves every manifest record and every other page unchanged |
| `Entries.ParsePage` | functions/split_files/app.py:108-115 | the page number error comes first, then the decoding error; the page's text is recorded exactly when the number parses and every `LINE` has `Text`; well-formedness is kept |
| `Entries.ProcessMember` | functions/split_files/app.py:95-102 | a non-file member is skipped; a Textract member never changes a manifest record or the unprocessed list; well-formedness is kept |
| `Entries.ProcessMembers` | functions/split_files/app.py:94-102 | reading members in archive order keeps every stored record under its own page number |
| `Entries.ProcessMembersConcat` | functions/split_files/app.py:94-102 | reading an archive in two parts is reading the first part and continuing from where it left off; an exception in the first part ends the reading |
| `Entries.PagesOnly` | functions/split_files/app.py:97-102 | members that are not manifests never change a manifest record or the unprocessed list |
| `Entries.ManifestMember` | functions/split_files/app.py:99-100 | a manifest member read against an empty list gives a record to each of its page numbers |
| `Entries.SingleManifest` | functions/split_files/app.py:90-105 | for an archive with exactly one manifest announcing `N` pages, the pages with a record are exactly the manifest's page numbers, all in `1..N`, and the unprocessed list is the rest of `1..N`, ascending |
| `Entries.MemberText` | functions/split_files/app.py:95-115 | reading a regular file not ending in `.out` sets the OCR of the page it is named after to the file's extracted text; every other member, and every other page, leaves the OCR as it was |
| `Entries.MembersText` | functions/split_files/app.py:94-115 | after a successful read of the members, each page's OCR is the extracted text of the last Textract member named after it, or what it was before when no member is |
| `Entries.ProcessComprehendData` | functions/split_files/app.py:90-105 | every stored manifest record sits under its own page number, and each page's OCR is the extracted text of the last Textract member (a regular file not ending in `.out`) whose name reads as that page, or nothing when no member does |
| `Entries.ProcessedPages` | functions/split_files/app.py:93-102 | the dictionary holds exactly the page numbers the members bring: Textract member numbers and manifest record numbers |
| `Entries.PageAndManifestCommute` | functions/split_files/app.py:94-102 | a Textract member and a manifest member can be read in either order: both orders fail, or both give the same dictionary and list |
| `Handler.Strings` | functions/split_files/app.py:71 | `list(map(str, ...))` gives, position by position, `str()` of each unprocessed page; `Handler.StringsRoundTrip` ties each back to its page |
| `Handler.StringsRoundTrip` | functions/split_files/app.py:71 | each reported page string is canonical and reads back with `int()` as the page at the same position; by `PyText.CanonicalUnique` it is the only canonical string that does |
| `Handler.SplitDocuments` | functions/split_files/app.py:60-61 | the work fails exactly when reading the archive or classifying its pages fails; on success the final list is the archive's leftovers followed by exactly the below-threshold pages in ascending order, and the documents hold exactly the accepted `FIRST_PAGE` and `PAGE` pages, ascending |
| `Handler.LambdaHandler` | functions/split_files/app.py:58-82 | `ACCEPTED` exactly when the work succeeds with nothing unprocessed; `ERROR` exactly when it raises, carrying `str(e)`; otherwise the documents plus the unprocessed pages as exactly `str()` of each page, in order |
| `Handler.AcceptedMeansAllClassified` | functions/split_files/app.py:60-67 | an accepted response means the manifests left nothing unaccounted and every page's top class scored at least 0.99 |
| `Handler.UnclassifiedPagesListed` | functions/split_files/app.py:67-71 | a rejection for unclassified pages lists what the manifests left, in that order, followed by exactly the below-threshold pages in ascending order |
| `Handler.SingleManifestPartition` | functions/split_files/app.py:60-71 | with one manifest announcing `N` pages, a successful run places every page of `1..N` exactly once, in a document, in the unprocessed list (which repeats nothing) or among the skipped pages, and nothing outside `1..N` appears |
| `Handler.ClassifyCoversRange` | functions/split_files/app.py:147-165 | when the recorded pages are some page numbers within `1..N` and the list passed in is the rest of `1..N`, the documents, the returned list and the skipped pages partition `1..N` |

## Left out

- Downloading from S3 (`download_file`) and opening the tar/gzip archive: the archive is given as its sequence of members, in archive order.
- JSON decoding: a member carries its decoded views. For a manifest these are per-line results, so a line that fails to decode raises exactly where `json.loads` would. For a Textract result it is a list of blocks or the decoder's error.
- Missing keys inside decoded JSON other than `Text` (`DocumentMetadata`, `PageNumber`, `Pages`, `Classes` inside a record, `BlockType`, `Blocks`, `Name`, `Score`): records always carry them, and page numbers and totals are already integers. `KeyError 'Classes'` is modelled only for a page with no manifest record at all, whose `Classification` is still the empty dict.
- The other keys of a manifest record (`File`, `DocumentType`, `Version` and the like) travel unchanged into `Documents` with the record, but a record models only its page number, total and classes.
- Links in the archive: `extractfile` follows a link to the member it names and raises `KeyError` when that member is missing; the model treats a link as the file it points to and has no dangling links.
- Missing keys in the invocation event (`ExecutionId`, the input `S3Uri`): the event always carries both.
- `PyText.ParseInt`: only ASCII digits, an optional sign and single underscores between digits are accepted; Python's `int()` also accepts other Unicode decimal digits. A text of more than 4300 digits makes CPython raise `ValueError` ("Exceeds the limit (4300 digits) for integer string conversion"); the model reads it as a number.
- `Wrappers.Message`: the `ValueError` texts of `max()` on an empty list and of `list.remove` are those of CPython 3.11; later releases may word the `max()` one differently (newer ones say `max() iterable argument is empty`). The texts of `KeyError` and `int()`'s `ValueError` use single quotes; Python's `repr` switches quotes or escapes characters for texts containing quotes or non-printable characters. `int()`'s message formats the text with `%.200R`, so a text longer than 200 characters is cut short there; the model quotes it whole.
- Logging and tracing (`logger`, `tracer`): no effect on results.
- Floating point: scores are `real`, so rounding in JSON number parsing is not modelled.
- The other functions of the pipeline, which are not part of this model.
