# Improv festivals worldwide: the festival generator, modelled in Dafny

The generator reads one Google Sheet per continent. Each sheet has a header
row, then one festival per row. Columns are recognised by the slug of their
title: eight fixed fields (`festival-name`, `city`, `country`, `mm`,
`languages`, `webpage`, `facebook`, `email`) and two year columns, for this
year and next year. A row becomes a festival when its `mm` (month) cell is
filled and one of its year cells holds a usable date in a year-month that
has not passed. Each continent's festivals are sorted by year-month. The
continents are then concatenated in a fixed order. Every festival may also
get a preview image: the webpage's og:image first, the Facebook page picture as
the fallback.

The model has one module per piece of that pipeline:

- `PhpValues`: PHP's `empty` on strings (`null`, `""` and `"0"`), the
  `\d` digit test, and integers written as array keys (`DecimalString`).
- `Calendar`: the clock reading `Now` and the `YearMonth` pair that stands
  for a `CarbonImmutable` on the first of a month, with chronological order.
- `Slugs`: the slug of a header title.
- `RowWrapper`: the curried closure accessor `loadMappings(mappings)(row)(key)`.
- `MappedRows`: `MappedRow`. Its static mapping is a `MappingTable` object
  shared by every row, and `loadMappings` overwrites that table's field.
- `ColumnMapper`: `createColumnIndexMappings`. It is a loop-based method,
  proved equal to a specification function whose properties fix it uniquely.
- `YearClassifier`: `getYearColumnValue`, `determineYearCase`,
  `getFestivalYearAndMonth` and `getFestivalClosestDate`.
- `FestivalImages`: `getFestivalImage` and `extractFacebookId`. The two
  network fetchers are function parameters.
- `FestivalPipeline`: the code around those pieces:
  - `fetchRowAndCreateFestival`;
  - the filter/map/filter/sort chain of `fetchAndProcessFestivals`;
  - the `array_reduce` concatenation of `generate`.

Slugs are modelled under a stated assumption. A title's slug is its ASCII
letters and digits, lower-cased. Each run of other characters becomes a
single `-`, and leading and trailing dashes are dropped. So "Festival Name"
becomes `festival-name`, "MM" becomes `mm`, and "2025" stays `2025`.

Inputs that come from outside the program are parameters:
- the sheet contents, as a grid of strings per sheet label;
- the clock, as a `Now` for each continent. The generator reads the clock
  once per continent, inside `fetchAndProcessFestivals`;
- the two image fetchers, as functions from a URL or page id to an optional
  image URL.

Points where the code's behaviour is easy to misread, and which the model
follows as written:
- A repeated allowed column title overwrites the earlier one, so the last
  occurrence wins.
- The field keys are the slugs `festival-name` and `mm`.
- Festivals are sorted per continent and then concatenated, with no global
  sort.
- The year-case names are the generator's `CURRENT_YEAR_ONLY` and
  `NEXT_YEAR_ONLY`. `app/Classes/YearCase.php` declares different names.
- The festival record is the one the generator's constructor call builds,
  not the field list of `app/Classes/Festival.php`.

## Model

| member | source | states |
|---|---|---|
| PhpValues.DecimalStringRoundTrip | app/Services/FestivalStaticGenerator.php:104-105 | the key written for a year (`$now->year` as an array key) reads back as that year |
| PhpValues.DecimalStringInjective | app/Services/FestivalStaticGenerator.php:104-105 | different years give different keys, so the two year columns never share a key |
| PhpValues.DigitsValueRoundTrip | app/Services/FestivalStaticGenerator.php:126-130 | a digit string without a leading zero is the decimal writing of the number PHP reads from it, the converse of DecimalStringRoundTrip |
| PhpValues.LeadingZeroValue | app/Services/FestivalStaticGenerator.php:126-130 | a leading zero does not change the number PHP reads from a digit string |
| PhpValues.CanonicalSuffix | app/Services/FestivalStaticGenerator.php:126-130 | a digit string denoting a positive number is zeros followed by that number's decimal string |
| Slugs.Slug | app/Services/FestivalStaticGenerator.php:93 | every title slugs to lower-case letters and digits in runs separated by single dashes, with no dash at either end |
| Slugs.SlugOfSlug | app/Services/FestivalStaticGenerator.php:93 | a title that already is a slug is kept as written |
| Slugs.SlugIdempotent | app/Services/FestivalStaticGenerator.php:93 | slugging a slug changes nothing |
| Slugs.SlugOfTwoWords | app/Services/FestivalStaticGenerator.php:93 | two words around a run of separators slug to the lower-cased words joined by one dash |
| Slugs.SlugExampleName | app/Services/FestivalStaticGenerator.php:93-97 | the header "Festival Name" slugs to the allowed key `festival-name` |
| Slugs.SlugExampleMonth | app/Services/FestivalStaticGenerator.php:93-99 | the header "MM" slugs to the allowed key `mm` |
| ColumnMapper.AllowedKeys | app/Services/FestivalStaticGenerator.php:95-106 | the allow-list has ten entries, among them this year's and next year's keys |
| ColumnMapper.AllowedKeysAreMatchable | app/Services/FestivalStaticGenerator.php:93-106 | every allowed key is a slug that slugs to itself, so a column titled exactly as the key is recognised |
| ColumnMapper.SlugifiedTitles | app/Services/FestivalStaticGenerator.php:93 | one slug per column title, in column order |
| ColumnMapper.MapColumns | app/Services/FestivalStaticGenerator.php:108-114 | every mapped key is allowed and maps to a column with that slug; every allowed slug is mapped; each key maps to its last column |
| ColumnMapper.MapColumnsUnique | app/Services/FestivalStaticGenerator.php:108-114 | those three properties determine the mapping: any map with them equals the loop's |
| ColumnMapper.ColumnMapping | app/Services/FestivalStaticGenerator.php:89-116 | the mapping keeps only allowed slugs of titles, each mapped to the last column whose title has that slug |
| ColumnMapper.CreateColumnIndexMappings | app/Services/FestivalStaticGenerator.php:89-116 | the loop, which skips titles outside the allow-list and overwrites repeated ones, returns exactly that mapping |
| ColumnMapper.IgnoredTitleMapsNothing | app/Services/FestivalStaticGenerator.php:109-111 | a column whose slug is not allowed is never the target of a key |
| ColumnMapper.LastOccurrenceWins | app/Services/FestivalStaticGenerator.php:113 | of two columns with the same allowed slug, the earlier one is not the mapped one |
| RowWrapper.Lookup | app/Classes/RowWrapper.php:11-16 | `null` exactly when the key is unmapped or its column is past the row's end, otherwise the cell at the mapped column |
| RowWrapper.LoadMappings | app/Classes/RowWrapper.php:7-19 | for every row and key the curried accessor gives `null` exactly when the key is unmapped or its column is past the row's end, and the mapped cell otherwise |
| RowWrapper.AccessorLookup | app/Classes/RowWrapper.php:7-19 | the curried accessor returns `null` for an unmapped key, `null` for a column past the row's end, and the mapped cell otherwise |
| RowWrapper.AccessorReadsOnlyMappedCell | app/Classes/RowWrapper.php:9-17 | the accessor depends only on the captured mapping and the key's cell of the row |
| MappedRows.MappingTable.constructor | app/Classes/MappedRow.php:9 | the shared mapping starts empty |
| MappedRows.MappingTable.LoadMappings | app/Classes/MappedRow.php:11-14 | `loadMappings` replaces the whole shared mapping |
| MappedRows.MappedRow.LoadRow | app/Classes/MappedRow.php:16-19 | `loadRow` wraps the given row unchanged, bound to the shared table |
| MappedRows.MappedRow.Get | app/Classes/MappedRow.php:21-29 | `get` answers through the currently loaded mapping, as the closure accessor built from it does: `null` for an unmapped key or a column past the row's end, else the mapped cell; it changes nothing |
| MappedRows.ReloadingMappings | app/Classes/MappedRow.php:9-29 | a row loaded before a reload reads through the new mapping, while a closure accessor keeps the mapping it captured |
| YearClassifier.YearColumnValue | app/Services/FestivalStaticGenerator.php:173-188 | a year cell is returned exactly when it is present, not PHP-empty and contains a digit, and then unchanged; otherwise `null` |
| YearClassifier.YearColumnValueExamples | app/Services/FestivalStaticGenerator.php:173-188 | "TBD" and "0" give `null`, "June 12-15" is kept |
| YearClassifier.DetermineYearCase | app/Services/FestivalStaticGenerator.php:190-206 | the case has a current-year date exactly when the current value is not empty, and likewise for next year |
| YearClassifier.YearCaseTable | app/Services/FestivalStaticGenerator.php:190-206 | the four combinations of present and absent year values give the four cases |
| YearClassifier.FestivalYearAndMonth | app/Services/FestivalStaticGenerator.php:217-242 | the result keeps the row's month and picks the earliest year that has a date and in which the month has not passed, the current month included; none when no such year exists |
| YearClassifier.ResolutionTable | app/Services/FestivalStaticGenerator.php:227-241 | the resolution table row by row |
| YearClassifier.ClosestDate | app/Services/FestivalStaticGenerator.php:160-171 | the current-year value for a festival of the current year, the next-year value otherwise; DisplayDateFromResolvedYear shows it is then never `null` |
| YearClassifier.DisplayDateFromResolvedYear | app/Services/FestivalStaticGenerator.php:160-171 | once a year-month is resolved, the display date is never `null`: it is the cell of the resolved year's column and contains a digit |
| FestivalImages.TrimTrailingSlashes | app/Services/FestivalStaticGenerator.php:341 | `rtrim` drops exactly the trailing slashes |
| FestivalImages.LastSegment | app/Services/FestivalStaticGenerator.php:341-342 | the last element of `explode("/")` is the slash-free suffix that follows the last slash |
| FestivalImages.ExtractFacebookId | app/Services/FestivalStaticGenerator.php:339-343 | the id holds no slash, ends the trimmed URL right after a slash, and is empty exactly when the URL is all slashes |
| FestivalImages.ExtractFacebookIdOfPage | app/Services/FestivalStaticGenerator.php:339-343 | any URL ending in a slash, a slash-free page name and a trailing slash gives that page name |
| FestivalImages.ExtractFacebookIdExample | app/Services/FestivalStaticGenerator.php:339-343 | `https://www.facebook.com/improvfest/` gives `improvfest` |
| FestivalImages.FacebookPicture | app/Services/FestivalStaticGenerator.php:311-331 | the Graph API is asked only for a non-empty page id, with that id |
| FestivalImages.FestivalImage | app/Services/FestivalStaticGenerator.php:251-276 | with both URLs empty: no image and no fetch; the log of fetches is exactly: the webpage once if its URL is set, then Facebook once if its URL is set and the webpage is empty or gave nothing, so a truthy webpage result is returned without consulting Facebook; a returned image is never PHP-empty and is the answer of the webpage fetch or of the Facebook fetch; there is no image exactly when every fetch tried gave nothing |
| FestivalPipeline.ContinentPositions | app/Services/FestivalStaticGenerator.php:21-27 | each continent sits at its own position in the generator's list |
| FestivalPipeline.MonthNumber | app/Services/FestivalStaticGenerator.php:126-130 | the `mm` cell passed to `int $monthNumber` becomes the month its digits denote: the cell is some leading zeros followed by that month's decimal string, and with no leading zero it is exactly that string |
| FestivalPipeline.MonthNumberOfDecimal | app/Services/FestivalStaticGenerator.php:126-130 | every month written in decimal is accepted and read back as itself |
| FestivalPipeline.FestivalFromRow | app/Services/FestivalStaticGenerator.php:118-158 | a row gives a festival exactly when it has a usable next-year date, or a usable current-year date and its month has not passed; the festival's year is the earliest year with a usable date in which the month is still ahead (so this year when both qualify); it carries the row's cells, the `mm` month, an upcoming year-month in this or next year, the date cell of that year, the continent, and the image chosen by the fallback policy |
| FestivalPipeline.RowFestivals | app/Services/FestivalStaticGenerator.php:70-81 | one row contributes at most one festival, and exactly the festival it yields: none for a PHP-empty `mm` or an undated row |
| FestivalPipeline.DatedFestivals | app/Services/FestivalStaticGenerator.php:70-81 | the filter/map/filter chain keeps at most one festival per row, all of the sheet's continent |
| FestivalPipeline.DatedFestivalsOfRow | app/Services/FestivalStaticGenerator.php:70-81 | a single row gives at most one festival, and exactly the one it yields |
| FestivalPipeline.DatedFestivalsAppend | app/Services/FestivalStaticGenerator.php:70-81 | the chain's output for two runs of rows is the first run's festivals followed by the second's, so row order and repeated rows are kept; with DatedFestivalsOfRow this fixes the output row by row |
| FestivalPipeline.DatedFestivalsFromRows | app/Services/FestivalStaticGenerator.php:70-81 | a festival survives exactly when some row with a non-empty `mm` (so not "0") yields it |
| FestivalPipeline.InsertByYearMonth | app/Services/FestivalStaticGenerator.php:82-84 | inserting into a sorted list keeps it sorted and adds exactly the one festival |
| FestivalPipeline.SortByYearMonth | app/Services/FestivalStaticGenerator.php:82-84 | the result is ascending by (year, month) and a permutation of the input |
| FestivalPipeline.SortKeepsTies | app/Services/FestivalStaticGenerator.php:82-84 | the sort is stable: festivals of one year-month keep their order |
| FestivalPipeline.ContinentFestivals | app/Services/FestivalStaticGenerator.php:63-86 | a continent's list is sorted by year-month, a permutation of the dated rows' festivals, all of that continent |
| FestivalPipeline.HeaderNeverYields | app/Services/FestivalStaticGenerator.php:63-72 | every festival of a continent comes from a data row, never from the header row |
| FestivalPipeline.TiesKeepRowOrder | app/Services/FestivalStaticGenerator.php:70-86 | festivals of the same year-month appear in the order the chain produced them, which DatedFestivalsAppend shows is row order |
| FestivalPipeline.FetchAndProcessFestivals | app/Services/FestivalStaticGenerator.php:54-87 | builds the mapping from the header row, loads it into the shared table, and returns the continent's sorted list |
| FestivalPipeline.Concatenated | app/Services/FestivalStaticGenerator.php:29-36 | a festival is in the merged list exactly when it is in one of the blocks |
| FestivalPipeline.ConcatenatedWithout | app/Services/FestivalStaticGenerator.php:29-36 | a continent that owns no block has no festival in the merged list |
| FestivalPipeline.ConcatenatedByContinent | app/Services/FestivalStaticGenerator.php:29-36 | when the continents are distinct, the festivals of block k's continent in the merged list are exactly block k, in order |
| FestivalPipeline.ConcatenatedInListOrder | app/Services/FestivalStaticGenerator.php:29-36 | merging blocks of continents in list order keeps festivals of an earlier continent first |
| FestivalPipeline.ContinentBlocks | app/Services/FestivalStaticGenerator.php:20-36 | one block per continent of the list, in list order, each that continent's sorted festivals from its own sheet and clock reading |
| FestivalPipeline.Generate | app/Services/FestivalStaticGenerator.php:18-36 | a festival is in the generated list exactly when some continent's sheet produced it |
| FestivalPipeline.GenerateByContinent | app/Services/FestivalStaticGenerator.php:20-36 | in the generated list, each continent's festivals are its sheet's list, sorted by year-month |
| FestivalPipeline.GenerateInContinentOrder | app/Services/FestivalStaticGenerator.php:20-36 | in the generated list, festivals of an earlier continent come first |

## Left out

- Sheet retrieval (`Sheets::spreadsheet(...)->sheet(...)->all()`) is a remote call. The model takes each sheet's grid as a parameter.
- `CarbonImmutable::now()` is taken as a parameter. `CarbonImmutable::create` on the first of a month is the `YearMonth` pair.
- `fetchOgImage` and the HTTP part of `fetchFacebookImage` are network I/O with swallowed exceptions. They are parameters returning an optional string. The og:image regex over the downloaded HTML and the Graph API redirect are not modelled.
- The fetchers are modelled as deterministic functions. Two requests for the same URL give the same answer here, which the network does not promise.
- Slugs.Slug: the slug library itself is not modelled. The ASCII rule above is an assumption. Transliteration of non-ASCII letters, the `@` → `at` rule and the library's other special cases are not captured. Punctuation other than whitespace, `-` and `_` is deleted by the library rather than turned into a separator, so "Web.page" slugs to `webpage` there and to `web-page` in the model.
- ColumnMapper.CreateColumnIndexMappings: the allow-list test is exact membership, whereas PHP's `in_array` compares loosely. Under loose comparison a slug like `02025` also matches a year, but it is stored under a key that no lookup reads, so no cell read by the generator changes.
- FestivalPipeline.FestivalFromRow: a non-empty `mm` cell must be a string of ASCII digits denoting 1 to 12 (leading zeros allowed). The generator does not declare strict types, so PHP also coerces other spellings to `int $monthNumber`: numeric strings with surrounding whitespace, a sign or a fraction such as `" 7"`, `"+7"` or `"7.0"`, and leading-numeric text such as `"7 (July)"` (with a warning). The model excludes all of these. Only non-numeric text raises a TypeError. An out-of-range number makes Carbon roll the date into another year, which is not modelled either.
- FestivalPipeline.SheetProcessable: the sheet must have a header row. Without one, PHP fails on the missing first row before any festival is built.
- FestivalPipeline.SortByYearMonth: the model sorts chronologically by (year, month) for every year, while Laravel's `sortBy` compares the "Y-m" strings. The two orders agree for years written with four digits and differ from year 10000 on.
- HTML rendering and file writing in `generate` are not modelled. Neither are the Blade views, `resources/js/app.js` or the scheduling in `routes/console.php`: they hold no decision logic.
- `app/Classes/Festival.php` and `app/Classes/YearCase.php` are declarations only. The model uses the record and case names the generator actually uses.
- Continent.php (the `Continent` record with its slug and label) is not part of this model. Its two fields are the `UrlSlug` and `Label` of the `Continent` datatype.
