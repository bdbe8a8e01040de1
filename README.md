# 3PL catalog and loader, modelled in Dafny

This project models the data-handling core of the 3PL tool: the JSON routes of
`3PL.py` that keep three SQLite databases, and the bulk loader
`import_ctsv_gtsi.py` that refills one of them.

- **waiver.db**: the `waivers` table. Its rows are listed by upper-cased suite,
  added, rewritten in full and deleted by id (`Waivers.WaiverStore`).
- **retry.db**: the `suites` table and the `retry_tips` table (`Retry.RetryStore`).
  A tip names its suite only through its `type` text. `add_suite` derives a
  suite key from the stripped tag or title (`sanitize_key`). `delete_suite`
  removes the suite's tips and then the suite row. A suite reorder gives list
  position i the order (i+1)*10.
- **ctsv_gtsi.db**: sections, test cards and card images (`Catalog.CatalogStore`).
  A new card goes after every card of its section. A card update replaces the
  card's whole image list. The card listing groups the images by card.
  3PL.py never turns SQLite's foreign keys on, so no delete cascades to images.
- **import_ctsv_gtsi.py** (`Loader`) does four things in order:
  1. It upserts the three default sections.
  2. It empties the card and image tables.
  3. It inserts a list of cards with orders 10, 20, 30, … and keeps each
     non-empty image filename at order (index+1)*10.
  4. It collects the distinct filenames in order of first use.
  The loader turns foreign keys on, so a card naming a missing section raises,
  and the run ends there.

Each database is a class whose fields are its tables in rowid order, as
sequences, plus the next id each `AUTOINCREMENT` table hands out. Each route
handler is a method that returns a `Response`. Its contract states the
response and the new contents of every table. `Valid()` says that ids increase
and stay below the next id, and that keys are unique where a primary key or
the code makes them so.

Modules:
- `Tables`: filtering rows by a column (`Select`/`Drop`), `Replace`, and a stable
  insertion sort for `ORDER BY`.
- `Keys`: the ASCII string functions, `sanitize_key` and `allowed_file`.
- `Ordering`: `MAX(display_order)+10` and the reorder loops.
- `Api`: request fields and responses.
- `Waivers`, `Retry`, `Catalog`, `Loader`: the stores and handlers.

## Model

| member | source | states |
|---|---|---|
| Keys.Upper | 3PL.py:780-782 | `str.upper` on ASCII: same length, each character upper-cased |
| Keys.Lower | 3PL.py:29-30 | `str.lower` on ASCII: same length, each character lower-cased |
| Keys.Strip | 3PL.py:769-770 | `str.strip`: a non-empty result neither starts nor ends with white space |
| Keys.StripSlice | 3PL.py:769-770 | strip keeps a contiguous slice of the text; everything cut off before and after it is white space |
| Keys.StripIdempotent | 3PL.py:769-770 | stripping a stripped text changes nothing |
| Keys.StripEmpty | 3PL.py:769-770 | strip gives the empty string exactly when the text is all white space |
| Keys.Split | 3PL.py:782 | `str.split('_')`: at least one piece; no piece contains the separator; pieces only hold characters of the text |
| Keys.JoinSplit | 3PL.py:782 | joining the pieces of a split with the same separator gives back the text |
| Keys.NonEmpty | 3PL.py:782 | `filter(None, …)` keeps a piece exactly when it is not empty |
| Keys.NonEmptyAppend | 3PL.py:782 | filtering a concatenation filters each part in turn, so the kept pieces stay in order and keep their repeats |
| Keys.NonEmptySingle | 3PL.py:782 | a single piece is kept exactly when it is not empty |
| Keys.MaskNonAlnum | 3PL.py:780 | every alphanumeric character is kept and every other character becomes `_` |
| Keys.DeriveKey | 3PL.py:773-784 | the key comes from the stripped tag when it is not empty, otherwise from the stripped title, and is always a well-formed key (possibly empty) |
| Keys.SanitizeKeyShape | 3PL.py:776-782 | a derived key is empty or made of upper-case letters, digits and single underscores, with no `_` at either end |
| Keys.JoinWords | 3PL.py:782 | joining non-empty alphanumeric words with `_` gives that shape before upper-casing |
| Keys.UpperKey | 3PL.py:782 | upper-casing keeps that shape and makes every letter upper case |
| Keys.SanitizeKeyLetters | 3PL.py:776-782 | with the underscores removed, the key is exactly the upper-cased alphanumeric characters of the text, in order |
| Keys.SanitizeKeyEmpty | 3PL.py:776-788 | the key is empty (the 400 of `add_suite`) exactly when the text has no alphanumeric character |
| Keys.AllowedFileIff | 3PL.py:21-30 | `allowed_file` holds iff the name has a `.` and the lower-cased text after the last `.` is an allowed extension |
| Keys.LastDotFound | 3PL.py:29-30 | `rsplit('.', 1)` splits at the last dot when there is one; with no dot there is no split point |
| Ordering.MaxOr0 | 3PL.py:802-803 | `MAX(display_order) or 0`: 0 for no rows, otherwise an existing order no smaller than any other |
| Ordering.NextOrder | 3PL.py:802-804 | the appended order is at least 10 above every existing order: exactly 10 above the largest, or 10 when there is none |
| Ordering.Reorder | 3PL.py:871-881 | after the UPDATE loop every row keeps its key, and a row whose key is not listed is unchanged |
| Ordering.ReorderStep | 3PL.py:871-881 | issuing entry i's UPDATE after entries 0..i-1 gives the table reordered by entries 0..i: the invariant of the reorder loops |
| Ordering.ReorderListed | 3PL.py:871-881 | with no key listed twice, the row named at list position p gets order (p+1)*10 |
| Ordering.SetOrderWhere | 3PL.py:875-881 | one UPDATE sets the order of exactly the rows with the key and leaves the others alone |
| Tables.Select | 3PL.py:538-546 | a `WHERE col = ?` keeps exactly the rows with that value, in table order |
| Tables.Drop | 3PL.py:634 | a `DELETE … WHERE col = ?` keeps exactly the rows without that value |
| Tables.DropCount | 3PL.py:634-636 | rows deleted plus rows kept is the row count; nothing matches, nothing is deleted |
| Tables.SelectAscending | 3PL.py:538-546 | rows kept from a table in id order are still in id order, which is the `ORDER BY id` of the listing |
| Tables.SelectDropped | 3PL.py:835-839 | after the delete no row has the deleted value |
| Tables.SelectDropOther | 3PL.py:835-839 | deleting by one value leaves the rows of every other value as they were |
| Tables.UniqueSelect | 3PL.py:839-840 | on a unique column a delete affects at most one row |
| Tables.Replace | 3PL.py:604-620 | an `UPDATE … WHERE id = ?` rewrites the rows with the id and leaves the others in place |
| Tables.ReplaceReads | 3PL.py:604-620 | after the update the id reads back as the new row, or as nothing when no row had it |
| Tables.ReplaceKeepsOthers | 3PL.py:604-620 | an update leaves every row with another id as it was |
| Tables.SortBy | 3PL.py:751 | an `ORDER BY` listing is a permutation of the table |
| Tables.SortByIsSorted | 3PL.py:751 | the listing is in key order and is a permutation of the table |
| Tables.SortBySorted | 3PL.py:751 | a table already in key order is listed as it stands |
| Tables.SelectSortBy | 3PL.py:925-928 | listing the whole table and keeping one card's images gives that card's images listed on their own |
| Tables.SortByAppendLast | 3PL.py:802-817 | a row whose key no row exceeds is listed last |
| Tables.LastPosition | 3PL.py:871-881 | the position of the last entry naming a key, whose UPDATE is the one that sticks |
| Tables.TextLeTotal | 3PL.py:917 | the text order of `ORDER BY section_key` is total |
| Tables.TextLeAntisym | 3PL.py:917 | two texts ordered both ways are equal |
| Api.Stored | 3PL.py:584 | `data.get(k)` stored in a nullable column: a value exactly when the field is present |
| Api.ListOrEmpty | 3PL.py:862-864 | `request.json or []` then `isinstance(list)`: a list body as given, a false non-list as the empty list, a true non-list refused |
| Waivers.RowFrom | 3PL.py:574-586 | the row written has the upper-cased suite and the request's other fields; `note` may be null |
| Waivers.ListAfterAdd | 3PL.py:533-591 | a waiver added under a suite shows up last in that suite's listing and in no other listing |
| Waivers.WaiverStore.constructor | 3PL.py:58-68 | the table starts empty with id 1 next |
| Waivers.WaiverStore.List | 3PL.py:533-561 | the listing holds exactly the rows of the upper-cased suite, in id order |
| Waivers.WaiverStore.Add | 3PL.py:564-591 | a missing required field gives 400 and changes nothing; otherwise one row is appended under the next id, and that id is returned |
| Waivers.WaiverStore.Update | 3PL.py:594-626 | a missing required field gives 400; otherwise the row with the id is rewritten in full, and the answer is 404 exactly when no row had the id |
| Waivers.WaiverStore.Delete | 3PL.py:629-642 | the row with the id is removed, and the answer is 404 exactly when there was none |
| Retry.DefaultSuiteKeys | 3PL.py:104-110 | every seeded key is a well-formed key |
| Retry.DefaultSuitesUnique | 3PL.py:104-110 | no two seeded suites share a key |
| Retry.DefaultSuitesOrdered | 3PL.py:104-117 | the seeded suites take increasing ids and orders 10 to 50 in list order |
| Retry.DecideSuite | 3PL.py:762-799 | each outcome of `add_suite` holds exactly when its condition does: the 400 for a missing or empty title; the crash on a null tag once the title is given; the 400 when the derived key is empty; the 409 when a suite has the key; otherwise a new suite. A new suite gets the derived key, which is well-formed and unused, the stripped title and the stripped tag (empty when the tag is missing) |
| Retry.RetryStore.constructor | 3PL.py:77-99 | both tables start empty with id 1 next |
| Retry.RetryStore.SeedSuites | 3PL.py:102-117 | an empty `suites` table receives the five default suites; a non-empty one is left alone |
| Retry.RetryStore.ListSuites | 3PL.py:746-756 | the listing is a permutation of the suites, in display order |
| Retry.RetryStore.AddSuite | 3PL.py:759-822 | a refusal changes nothing; otherwise a suite with the derived key, the stripped title and tag, and order max+10 is appended under the next id |
| Retry.RetryStore.AppendSuite | 3PL.py:801-822 | the INSERT of `add_suite`: it appends the suite with order max+10 and keeps the store valid |
| Retry.AddedSuiteListedLast | 3PL.py:801-804 | a suite added with order max+10 is listed after every existing suite |
| Retry.AppendSuiteValid | 3PL.py:794-817 | appending a suite whose key is new and well formed keeps suite keys unique and ids increasing |
| Retry.RetryStore.DeleteSuite | 3PL.py:825-856 | the tips of the upper-cased key are deleted whether or not the suite exists; the suite row goes; the answer is 404 exactly when no suite had the key, with the message as written (the same for every key), otherwise it reports the number of tips deleted |
| Retry.RetryStore.ReorderSuites | 3PL.py:859-891 | a non-list or empty body gives 400 and changes nothing; otherwise the suites are reordered by the upper-cased keys |
| Retry.ReorderKeepsSuites | 3PL.py:875-881 | a reorder changes no suite's id, key, title or tag |
| Retry.ReorderedSuitesValid | 3PL.py:871-884 | a reorder keeps suite keys unique and ids increasing |
| Retry.RetryStore.ListTips | 3PL.py:649-660 | the listing is the tips in id order |
| Retry.RetryStore.AddTip | 3PL.py:663-689 | a missing type, module_case or condition gives 400 and changes nothing; otherwise one tip is appended under the next id |
| Retry.RetryStore.UpdateTip | 3PL.py:692-723 | a missing required field gives 400; otherwise the tip with the id is rewritten, and the answer is 404 exactly when none had it |
| Retry.RetryStore.DeleteTip | 3PL.py:726-739 | the tip with the id is removed, and the answer is 404 exactly when there was none |
| Retry.SuiteNotFoundAsWrittenIgnoresKey | 3PL.py:851 | as written, the 404 message is the same for two different keys |
| Retry.SuiteNotFoundNamesKey | 3PL.py:851 | the intended message tells every two keys apart |
| Catalog.DefaultSectionsUnique | 3PL.py:158-171 | no two seeded sections share a key |
| Catalog.CatalogStore.constructor | 3PL.py:128-155 | every table starts empty with id 1 next |
| Catalog.CatalogStore.SeedSections | 3PL.py:157-171 | an empty `ctsv_sections` receives the three default sections; a non-empty one is left alone |
| Catalog.CatalogStore.ListSections | 3PL.py:898-907 | the listing is a permutation of the sections, in display order |
| Catalog.CatalogStore.ListCards | 3PL.py:910-935 | every card is listed once, sorted by section and order; each card carries the filenames of its images, by display order |
| Catalog.GroupFilenames | 3PL.py:922-928 | the `setdefault(…).append` loop maps each card id that has images to the filenames of its rows in listing order; ids it leaves out have no rows |
| Catalog.GroupedUrls | 3PL.py:925-928 | a card's group in the sorted image listing holds its images by display order |
| Catalog.AttachUrls | 3PL.py:931-932 | each listed card gets its group, or the empty list when it has none |
| Catalog.NewImages | 3PL.py:974-978 | url i is written with order (i+1)*10 under the i-th fresh id |
| Catalog.NewImagesListed | 3PL.py:974-978 | the images just written are listed in the order given |
| Catalog.ImagesAfterWrite | 3PL.py:1016-1022 | once a card's old images are gone, its listed images are exactly the new urls, in order |
| Catalog.ImagesOfOthers | 3PL.py:1016-1022 | replacing one card's images leaves every other card's image list as it was |
| Catalog.StrayImagesShowUp | 3PL.py:1017-1022 | images left under a card id with no card are shown on the card that later gets that id: its list holds the stray filenames and its own urls, each as often as stored |
| Catalog.AddedCardListedLast | 3PL.py:951-970 | a new card comes last among the cards of its section |
| Catalog.CatalogStore.AddCard | 3PL.py:938-982 | a missing required field gives 400 and changes nothing. Otherwise the card is appended under the next id, with the upper-cased section and order max+10 over that section only, followed by its images |
| Catalog.EditCards | 3PL.py:999-1013 | the UPDATE rewrites section, title, subtitle, content and note of the card with the id; ids and display orders stay; other cards are untouched |
| Catalog.CatalogStore.UpdateCard | 3PL.py:985-1029 | a missing required field gives 400. Otherwise the card is edited and its images are replaced, even when no card has the id. The answer is 404 exactly when no card had the id, and the card's listed images are then exactly the given urls |
| Catalog.CatalogStore.ReplaceImages | 3PL.py:1016-1022 | the card's old images are deleted and the new ones appended, so its listed images are exactly the urls |
| Catalog.CatalogStore.WriteImages | 3PL.py:974-978 | the insert loop appends one image per url, with increasing fresh ids |
| Catalog.CatalogStore.DeleteCard | 3PL.py:1032-1044 | the card is removed and its images stay; the answer is 404 exactly when no card had the id |
| Catalog.CatalogStore.DeleteSection | 3PL.py:1047-1077 | the cards of the upper-cased section are deleted and then the section; the images stay; the answer is 404 exactly when no section had the key, with the message as written (the same for every key), otherwise it reports the number of cards deleted |
| Catalog.CatalogStore.ReorderSections | 3PL.py:1080-1112 | a non-list or empty body gives 400 and changes nothing; otherwise the sections are reordered by the upper-cased keys |
| Catalog.CatalogStore.ReorderCards | 3PL.py:1115-1150 | only a non-list body gives 400, so an empty list is accepted; the UPDATEs match on id and upper-cased section |
| Catalog.ReorderCardsStaysInSection | 3PL.py:1134-1141 | a card of another section keeps its order whatever ids are listed |
| Catalog.ReorderCardsListed | 3PL.py:1130-1141 | with no id listed twice, the card of the section listed at position p gets order (p+1)*10 |
| Catalog.ReorderKeepsCardIds | 3PL.py:1130-1141 | a card reorder keeps ids increasing |
| Catalog.SectionNotFoundAsWrittenIgnoresKey | 3PL.py:1072 | as written, the 404 message is the same for two different keys |
| Catalog.SectionNotFoundNamesKey | 3PL.py:1072 | the intended message tells every two keys apart |
| Loader.LoaderSectionsUnique | import_ctsv_gtsi.py:57-61 | no two default sections of the loader share a key |
| Loader.UpsertPlaced | import_ctsv_gtsi.py:63-69 | after one upsert the key is held by exactly the given section, and keys stay unique |
| Loader.UpsertOther | import_ctsv_gtsi.py:63-69 | an upsert leaves the rows of every other key alone |
| Loader.UpsertAllPlaced | import_ctsv_gtsi.py:62-69 | after the loop each listed section exists exactly once with its title, tag and order; unlisted keys keep their rows; keys stay unique |
| Loader.LoaderSectionsPresent | import_ctsv_gtsi.py:55-70 | after `upsert_sections` GTSI, CTSV and MADA are each present exactly once as given |
| Loader.UpsertSections | import_ctsv_gtsi.py:55-70 | the sections become the upsert of the three defaults; cards and images are untouched |
| Loader.ClearCards | import_ctsv_gtsi.py:72-76 | the card and image tables are empty; the sections are unchanged |
| Loader.CardOf | import_ctsv_gtsi.py:80-84 | the card row inserted: the next id and the draft's fields and order |
| Loader.Kept | import_ctsv_gtsi.py:86-88 | the non-empty filenames with their original indexes, in increasing index order |
| Loader.KeptImages | import_ctsv_gtsi.py:86-90 | every inserted image names the new card and is non-empty, and the one at original index idx gets order (idx+1)*10 |
| Loader.KeptOrdersIncrease | import_ctsv_gtsi.py:86-90 | the kept images' orders strictly increase, gaps and all |
| Loader.KeptNames | import_ctsv_gtsi.py:86-90 | the inserted filenames are the non-empty urls, in order |
| Loader.KeptImagesListed | import_ctsv_gtsi.py:86-90 | the card's listed images are its non-empty urls, in order |
| Loader.InsertedImagesListed | import_ctsv_gtsi.py:78-92 | inserting a card whose id has no images lists exactly its non-empty urls |
| Loader.KeptImagesSelect | import_ctsv_gtsi.py:89-90 | every image inserted for a card names that card and no other |
| Loader.ImagesOfNewCard | import_ctsv_gtsi.py:78-92 | inserting one card's images leaves every other card's image list alone |
| Loader.InsertCard | import_ctsv_gtsi.py:78-92 | with the section missing, the foreign key refuses the card and nothing changes. Otherwise exactly one card is inserted, its fresh id is returned, and its kept images follow under that id |
| Loader.WriteKeptImages | import_ctsv_gtsi.py:86-90 | the image loop appends the kept images with increasing fresh ids |
| Loader.StageOrders | import_ctsv_gtsi.py:105-117 | the cards of `main` get orders 10, 20, 30, … in list order, strictly increasing |
| Loader.Dedup | import_ctsv_gtsi.py:268-272 | `used_files` holds each non-empty filename once, and nothing else |
| Loader.DedupFirstSeen | import_ctsv_gtsi.py:268-272 | the files are in order of their first occurrence |
| Loader.DedupSnoc | import_ctsv_gtsi.py:270-272 | one more filename is appended exactly when it is non-empty and new |
| Loader.UseFiles | import_ctsv_gtsi.py:270-272 | the inner loop extends the de-duplicated list by one card's filenames |
| Loader.UsedFiles | import_ctsv_gtsi.py:268-272 | the loops compute the de-duplicated list of all filenames |
| Loader.InsertDrafts | import_ctsv_gtsi.py:262-264 | the insert loop stops at the first card whose section is missing; each card before it is in the table with its fresh id, and its kept images under that id; the card counter moves on by the cards inserted and the image counter by the images |
| Loader.InsertNext | import_ctsv_gtsi.py:262-263 | one pass of the loop: the card and its kept images are appended, or nothing changes because the section is missing |
| Loader.WrittenSelect | import_ctsv_gtsi.py:262-264 | after k cards, the images naming the card inserted k-th are exactly its kept images |
| Loader.WrittenCardsOwn | import_ctsv_gtsi.py:72-92 | after the tables are cleared and the cards inserted, every image row names one of the inserted cards |
| Loader.DraftsListed | import_ctsv_gtsi.py:262-264 | every inserted card is the draft with its staged order, and its listed images are the draft's non-empty urls |
| Loader.Import | import_ctsv_gtsi.py:94-283 | the sections are upserted. Then the first n drafts are in the card table, each with order 10(k+1) and its non-empty urls as its images. When n falls short, draft n names a missing section and the run raises. When the run completes, `used_files` is the de-duplicated list of all filenames. Every image row left belongs to an imported card, and each counter has moved on by exactly the rows inserted |
| Loader.DefaultDraftsLoad | import_ctsv_gtsi.py:99-117 | a draft filed under GTSI, CTSV or MADA finds its section after the upsert |

## Left out

- Strings are ASCII-only: `upper`, `lower`, `isalnum` and `strip` are modelled on ASCII characters. Python's Unicode rules for other characters are not modelled.
- A JSON field is absent, `null` or a string. Numbers, lists and objects sent where a string is expected are not modelled; the code would store them or crash on `.upper()`.
- Catalog.CatalogStore.ReorderCards: the listed ids are taken to be integers. The code binds each list element as given, and SQLite's type affinity would also let a JSON string `"7"` or a float `7.0` match card 7, and `true` match card 1; that coercion is not modelled.
- Catalog.CatalogStore.AddCard, Catalog.CatalogStore.UpdateCard: `image_urls` is taken to be a list of strings. The code iterates whatever `data.get("image_urls") or []` gives, so a string would store one image per character and a list of non-strings would be stored as is; neither is modelled.
- Flask routing, `jsonify`, the HTML pages and `/ping` are presentation only. The column projection of each listing is not modelled: a listing returns whole rows.
- `upload_file` saves to disk and calls a foreign library and the clock, so it is left out. Only `allowed_file` is modelled.
- SQLite plumbing is left out: connections, `CREATE TABLE` text, commit and rollback, and the 500 answers for database errors. Each handler is atomic on the store. The one uncaught exception modelled is `None.strip()` on a null `suite_tag` (`Crashed`).
- The `card_images` table is created by the loader, not by `init_db`. The model assumes it exists.
- The `IN (…)` filter of `list_ctsv_cards` is not modelled. The model shows images of listed cards only, which is all the route returns.
- The order of rows that tie on the `ORDER BY` columns is left to SQLite. The suite, section and card listings state sorted order and permutation, not a particular tie order. A card's image list (`Catalog.ImageUrls`) is a stable sort, so images that tie on display order appear in rowid order; SQLite does not promise that order.
- `init_ctsv_gtsi_db.py`, `init_retry_db.py` and `import_retry.py` are not part of this model.
- Concurrency is left out: a single writer is assumed.
- The loader's printed messages are left out.
- The loader's literal card contents are a parameter (`drafts`), not the fixed list itself. `ensure_tables` is modelled as the three tables existing. `get_conn` is modelled as foreign keys being on, which is what makes `InsertCard` refuse a card with a missing section.
- The `AUTOINCREMENT` counters are kept as unbounded integers; SQLite's 64-bit limit is not modelled.

## Findings

| source | as written | input that shows it | evidently intended | confidence | as-written member | corrected member |
|---|---|---|---|---|---|---|
| 3PL.py:851 | the 404 message lacks the `f` prefix, so it reads `Suite key '{suite_key}' not found.` for every key | `DELETE /api/suites/delete/gts` on a store with no `GTS` suite (and likewise for `CTS`) | name the missing key, as the 409 message of `add_suite` does | not executed | Retry.SuiteNotFoundAsWrittenIgnoresKey | Retry.SuiteNotFoundNamesKey |
| 3PL.py:1072 | the 404 message lacks the `f` prefix, so it reads `Section key '{section_key}' not found.` for every key | `DELETE /api/ctsv_gtsi/sections/delete/gtsi` on a store with no `GTSI` section (and likewise for `MADA`) | name the missing key | not executed | Catalog.SectionNotFoundAsWrittenIgnoresKey | Catalog.SectionNotFoundNamesKey |
