# Product import from CSV, modelled in Dafny

This project models the CSV product import of `spree-import-products`: the
use case `Imports::ImportProductsFromCsvUseCase`, which reads an uploaded
spreadsheet, creates the category taxons each row names and creates one
Spree product per row, and records the outcome on the `Spree::ProductImport`
it runs for. The model proves properties of it with the Dafny verifier.

The project is a set of modules, in dependency order:

- `Wrappers` (`wrappers.dfy`): `Option`, used for nullable cells and lookups.
- `Permalinks` (`permalinks.dfy`): `append_integer` as pure string
  arithmetic. `NumericSuffix` is the match of `/_(\d+)$/`, `DigitsValue` is
  `to_i` on the digits, and `NatToString` is `Integer#to_s`.
- `CsvRows` (`csv_rows.dfy`): the rows the loop sees. It covers the
  five-line preamble, the header, dropping rows that are all blank under
  that header, the column positions and the category cells of a row.
- `Taxonomy` (`taxonomy.dfy`): the taxon table. It holds the case-sensitive
  collision test `permalink_is_not_unique`, the suffixing loop as the
  function `ResolvedPermalink`, the case-insensitive lookup of a child of
  the root taxon, find-or-create, and resolving all of a row's categories.
- `ImportRun` (`import_run.dfy`): a whole run as functions. `ProcessRow` is
  one row and `ImportRows` is the numbered loop. Lemmas cover per-row
  outcomes, error ordering, uniqueness invariants and re-import.
- `ImportUseCase` (`import_use_case.dfy`): the class
  `ImportProductsFromCsv`. Its fields are the taxon table, the product
  table, and the import's `status` and `import_errors`. Each of its methods
  is proved to leave the fields exactly as the `ImportRun` and `Taxonomy`
  functions say. The collision loop and the two loops of `import_csv` are
  written as loops with invariants.

What the application leaves to Spree and Rails becomes inputs of the model.
A `Config` value holds three of them:
- `slug` is the permalink `set_permalink` derives from a name.
- `valid` says whether Spree's validations accept the product a row describes.
- `messages` is the `errors.messages` they report when they do not.

The ids of the categories taxonomy and of its root taxon are also inputs:
they are parameters of `ImportCsv`. The status values are those of the
`enum status` in `app/models/spree/product_import.rb:5`.

## Model

| member | source | states |
|---|---|---|
| Permalinks.DigitsValue | app/use_cases/imports/import_products_from_csv_use_case.rb:75 | `to_i` on a run of decimal digits: their value in base ten, leading zeros included; its properties are the lemmas below |
| Permalinks.NatToString | app/use_cases/imports/import_products_from_csv_use_case.rb:75 | `Integer#to_s` for a natural number: a non-empty decimal string |
| Permalinks.NumericSuffix | app/use_cases/imports/import_products_from_csv_use_case.rb:73 | the match of `/_(\d+)$/`: the stem before the last `_` and the digit run after it, when the permalink ends so; its properties are `NumericSuffixSplits`, `NumericSuffixOf` and `NumericSuffixMatches` |
| Permalinks.AppendInteger | app/use_cases/imports/import_products_from_csv_use_case.rb:72-77 | `append_integer`: replace the matched number by the next one, or append `_1`; its properties are `AppendIntegerIncrements`, `AppendIntegerAppendsOne` and `AppendIntegerSuffix` |
| Permalinks.DigitsValueOfNatToString | app/use_cases/imports/import_products_from_csv_use_case.rb:75 | reading back the decimal form of a number (`to_s` then `to_i`) gives the number |
| Permalinks.NatToStringDigits | app/use_cases/imports/import_products_from_csv_use_case.rb:75 | `to_s` yields only decimal digits, with a leading `0` only for zero |
| Permalinks.NatToStringOfDigits | app/use_cases/imports/import_products_from_csv_use_case.rb:75 | a digit string without leading zeros is the decimal form of its `to_i` value |
| Permalinks.TrailingDigits | app/use_cases/imports/import_products_from_csv_use_case.rb:73 | the counted run at the end of a permalink is all digits and cannot be extended to the left (the greedy `\d+` before `$`) |
| Permalinks.TrailingDigitCountOf | app/use_cases/imports/import_products_from_csv_use_case.rb:73 | digits appended after a non-digit are exactly the trailing run |
| Permalinks.NumericSuffixSplits | app/use_cases/imports/import_products_from_csv_use_case.rb:73 | a match splits the permalink into a stem, `_` and a non-empty run of digits |
| Permalinks.NumericSuffixOf | app/use_cases/imports/import_products_from_csv_use_case.rb:73 | the match of `stem_digits` is exactly that stem and those digits |
| Permalinks.NumericSuffixMatches | app/use_cases/imports/import_products_from_csv_use_case.rb:73-74 | the match exists if and only if the permalink has an underscore followed by one or more digits up to its end |
| Permalinks.AppendIntegerIncrements | app/use_cases/imports/import_products_from_csv_use_case.rb:72-75 | a permalink ending in `_N` becomes its stem, `_`, and the decimal form of N + 1 |
| Permalinks.AppendIntegerAppendsOne | app/use_cases/imports/import_products_from_csv_use_case.rb:72-76 | any permalink not ending in `_<digits>` gets `_1` appended |
| Permalinks.AppendIntegerSuffix | app/use_cases/imports/import_products_from_csv_use_case.rb:72-77 | after `append_integer` the permalink keeps its stem and ends in a number one above its old number (or 1) |
| Permalinks.IterateShift | app/use_cases/imports/import_products_from_csv_use_case.rb:49-51 | taking one step of the loop first and then k more is k + 1 steps |
| Permalinks.IterateSuffix | app/use_cases/imports/import_products_from_csv_use_case.rb:49-51 | after k > 0 steps the stem is unchanged and the number has grown by exactly k |
| Permalinks.IterateInjective | app/use_cases/imports/import_products_from_csv_use_case.rb:49-51 | no two steps of the loop produce the same permalink |
| Permalinks.AppendIntegerExampleNoSuffix | app/use_cases/imports/import_products_from_csv_use_case.rb:76 | `shoes` becomes `shoes_1` |
| Permalinks.AppendIntegerExampleIncrement | app/use_cases/imports/import_products_from_csv_use_case.rb:75 | `shoes_2` becomes `shoes_3` |
| Permalinks.AppendIntegerExampleOne | app/use_cases/imports/import_products_from_csv_use_case.rb:75 | `shoes_1` becomes `shoes_2` |
| Permalinks.DigitsValueWithLeadingZeros | app/use_cases/imports/import_products_from_csv_use_case.rb:75 | `"007".to_i` is 7 |
| Permalinks.AppendIntegerExampleLeadingZeros | app/use_cases/imports/import_products_from_csv_use_case.rb:75 | leading zeros are dropped: `shoes_007` becomes `shoes_8` |
| Permalinks.AppendIntegerExampleCarry | app/use_cases/imports/import_products_from_csv_use_case.rb:75 | the number may gain a digit: `shoes_9` becomes `shoes_10` |
| CsvRows.CellAt | app/use_cases/imports/import_products_from_csv_use_case.rb:34-36 | a column past the end of the row reads as `nil` |
| CsvRows.CellAtInRow | app/use_cases/imports/import_products_from_csv_use_case.rb:34-36 | a column the row reaches reads as exactly that cell |
| CsvRows.IsBlank | app/use_cases/imports/import_products_from_csv_use_case.rb:89 | `blank?`: a cell is blank when it is `nil` or holds only whitespace, the empty string included |
| CsvRows.AllBlank | app/use_cases/imports/import_products_from_csv_use_case.rb:89 | `to_hash.values.all?(&:blank?)`: every cell that is the first under its header name is blank, so cells under a repeated name, and every extra cell after the first past the header, are not looked at |
| CsvRows.AllBlankOfBlankCells | app/use_cases/imports/import_products_from_csv_use_case.rb:89 | a row whose every cell is blank is all blank under any header |
| CsvRows.AllBlankDistinctHeader | app/use_cases/imports/import_products_from_csv_use_case.rb:89 | under a header of distinct names that covers the row, the row is all blank if and only if every cell is blank |
| CsvRows.RepeatedHeaderHidesCell | app/use_cases/imports/import_products_from_csv_use_case.rb:88-90 | under `name,price,category,category,category,description` the row `,,,Shoes,,` names the category `Shoes` and is still all blank, so it is deleted |
| CsvRows.ExtraCellsShareNilHeader | app/use_cases/imports/import_products_from_csv_use_case.rb:89 | cells past the end of the header share the `nil` header, and only the first of them is tested |
| CsvRows.DropBlankRows | app/use_cases/imports/import_products_from_csv_use_case.rb:88-90 | the filter never adds a row |
| CsvRows.DropBlankRowsMembers | app/use_cases/imports/import_products_from_csv_use_case.rb:88-90 | a row is kept if and only if it is in the input and not all blank under the header |
| CsvRows.DropBlankRowsAppend | app/use_cases/imports/import_products_from_csv_use_case.rb:88-90 | the filter works row by row and keeps the order of the rows it keeps |
| CsvRows.DropBlankRowsKeepsAll | app/use_cases/imports/import_products_from_csv_use_case.rb:88-90 | a file without all-blank rows loses none |
| CsvRows.DropBlankRowsSkipsBlank | app/use_cases/imports/import_products_from_csv_use_case.rb:88-90 | an all-blank row is dropped wherever it stands, and the rest is kept as it was |
| CsvRows.SplitHeader | app/use_cases/imports/import_products_from_csv_use_case.rb:88 | with `headers: true` a first line that has fields is the header and the lines after it are exactly the data; there are fewer data lines than lines; without a header there is no data |
| CsvRows.SplitHeaderSkipsEmptyLines | app/use_cases/imports/import_products_from_csv_use_case.rb:88 | with `skip_blanks`, lines without any field before the header change neither header nor data |
| CsvRows.AfterPreamble | app/use_cases/imports/import_products_from_csv_use_case.rb:88 | `drop(IGNORE_LINES)` removes exactly five lines, or all of them when there are no more |
| CsvRows.ParsedCsv | app/use_cases/imports/import_products_from_csv_use_case.rb:87-91 | no retained row is all blank under the file's header, and a file of at most the five preamble lines and a header has no rows |
| CsvRows.PreambleIgnored | app/use_cases/imports/import_products_from_csv_use_case.rb:88 | what the first five lines say never changes the rows |
| CsvRows.ParsedCsvUnderHeader | app/use_cases/imports/import_products_from_csv_use_case.rb:88-90 | under a header line right after the preamble, that line is the header and the rows are the following lines without the all-blank ones |
| CsvRows.ParsedCsvIgnoresBlankRow | app/use_cases/imports/import_products_from_csv_use_case.rb:88-90 | an all-blank line after the header yields the same rows as a file without it |
| CsvRows.Present | app/use_cases/imports/import_products_from_csv_use_case.rb:37 | `filter { \|category\| category }` keeps exactly the strings of the non-`nil` cells and adds none |
| CsvRows.PresentOne | app/use_cases/imports/import_products_from_csv_use_case.rb:37 | one cell gives its string, or nothing when it is `nil` |
| CsvRows.PresentAppend | app/use_cases/imports/import_products_from_csv_use_case.rb:37 | the filter works cell by cell, so it keeps the order and the repetitions of the strings |
| CsvRows.PresentAllSome | app/use_cases/imports/import_products_from_csv_use_case.rb:37 | when no cell is `nil`, every cell is kept, in order |
| CsvRows.CategoryNames | app/use_cases/imports/import_products_from_csv_use_case.rb:34-37 | a row has at most three category names, and they are exactly the non-`nil` values of columns 2, 3 and 4 |
| CsvRows.CategoryNamesInColumnOrder | app/use_cases/imports/import_products_from_csv_use_case.rb:34-37 | the names are those of column 2, then column 3, then column 4, one for each non-`nil` cell, repetitions kept |
| CsvRows.CategoryNamesOfCells | app/use_cases/imports/import_products_from_csv_use_case.rb:34-37 | for a row that reaches column 4, the names come from `row[2]`, `row[3]` and `row[4]` in that order |
| CsvRows.CategoryNamesExample | app/use_cases/imports/import_products_from_csv_use_case.rb:34-37 | `nil` in column 3 between `b` and `a` gives `b, a`; the same name twice is kept twice |
| Taxonomy.PermalinkIsNotUnique | app/use_cases/imports/import_products_from_csv_use_case.rb:67-70 | `permalink_is_not_unique` for an unsaved taxon: some stored taxon with the same parent and taxonomy has exactly this permalink, compared case-sensitively |
| Taxonomy.MaxSuffixValue | app/use_cases/imports/import_products_from_csv_use_case.rb:67-70 | bounds the number every stored permalink ends in (the loop's variant) |
| Taxonomy.ResolvedPermalink | app/use_cases/imports/import_products_from_csv_use_case.rb:49-51 | the loop terminates on every finite store, and no stored taxon with the same parent and taxonomy has exactly the result, compared case-sensitively as `permalink_is_not_unique` (lines 67-70) does |
| Taxonomy.ResolvedKeepsStem | app/use_cases/imports/import_products_from_csv_use_case.rb:49-51 | the result is the candidate itself, or has the candidate's stem and a number above the candidate's own |
| Taxonomy.ResolvedIsFirstFree | app/use_cases/imports/import_products_from_csv_use_case.rb:49-51 | the result is the candidate after some k steps, and every earlier step collided |
| Taxonomy.CollisionsShift | app/use_cases/imports/import_products_from_csv_use_case.rb:49-51 | collisions of the steps after the first, plus the first, are collisions of every step up to k |
| Taxonomy.ResolvedKeepsFreePermalink | app/use_cases/imports/import_products_from_csv_use_case.rb:49 | a candidate that collides with nothing is kept as it is |
| Taxonomy.ResolvedPermalinkExample | app/use_cases/imports/import_products_from_csv_use_case.rb:49-51 | with `shoes` and `shoes_1` among the siblings, and `shoes_2` only under another parent, the new taxon gets `shoes_2` |
| Taxonomy.NamesMatch | app/use_cases/imports/import_products_from_csv_use_case.rb:43 | `name ILIKE ?` without wildcards: the names have the same length and agree after ASCII case folding |
| Taxonomy.NamesMatchIsEquivalence | app/use_cases/imports/import_products_from_csv_use_case.rb:43 | matching up to case is reflexive, symmetric and transitive |
| Taxonomy.FirstMatchingChild | app/use_cases/imports/import_products_from_csv_use_case.rb:43-44 | the index found holds a child of the root in the categories taxonomy whose name matches up to case, and no earlier one matches; when nothing is found, no taxon matches |
| Taxonomy.FirstMatchingChildUpToCase | app/use_cases/imports/import_products_from_csv_use_case.rb:43 | names that match each other up to case find the same taxon |
| Taxonomy.FreshId | app/use_cases/imports/import_products_from_csv_use_case.rb:44 | the id of a created taxon differs from every stored id |
| Taxonomy.FindOrCreate | app/use_cases/imports/import_products_from_csv_use_case.rb:43-54 | the taxon is a child of the root in the categories taxonomy whose name matches. On a match the store is unchanged and the first match is returned with its permalink untouched. Otherwise exactly one taxon is appended, named as in the row, with the id `FreshId`, which no stored taxon has, and with the permalink `ResolvedPermalink` gives for `slug(name)`: the suffixing loop started from `set_permalink`'s result, so no sibling has it |
| Taxonomy.FindOrCreateTwice | app/use_cases/imports/import_products_from_csv_use_case.rb:43-52 | a second lookup of the same name, in any case, returns the same taxon and creates nothing |
| Taxonomy.FirstMatchingChildAt | app/use_cases/imports/import_products_from_csv_use_case.rb:43-44 | a matching child with no matching child before it is exactly what the lookup finds |
| Taxonomy.FindOrCreateStable | app/use_cases/imports/import_products_from_csv_use_case.rb:42-56 | once a name is found or created, every later lookup of it, up to case, in a store that has only been appended to since, returns that same taxon and creates nothing, whatever lookups or rows came in between |
| Taxonomy.FindOrCreatePreservesWellFormed | app/use_cases/imports/import_products_from_csv_use_case.rb:43-54 | siblings keep distinct permalinks and taxons keep distinct ids |
| Taxonomy.ResolveCategories | app/use_cases/imports/import_products_from_csv_use_case.rb:41-56 | there is one taxon per name, in the order of the names. Each is a direct child of the root in the categories taxonomy, matches its name and is in the store. The store only grows; `ResolveCategoriesAppendsResolved` bounds what is appended |
| Taxonomy.ResolveCategoriesAppendsResolved | app/use_cases/imports/import_products_from_csv_use_case.rb:42-56 | at most one taxon is created per name, and every appended taxon is one of the taxons the row resolved to |
| Taxonomy.ResolveOneFound | app/use_cases/imports/import_products_from_csv_use_case.rb:43-52 | a name that already has a matching child adds no taxon |
| Taxonomy.ResolveCategoriesFindsAll | app/use_cases/imports/import_products_from_csv_use_case.rb:42-52 | when every name already has a matching child, nothing is created |
| Taxonomy.ResolveCategoriesPreservesWellFormed | app/use_cases/imports/import_products_from_csv_use_case.rb:42-56 | a row's resolution keeps sibling permalinks and ids distinct |
| ImportRun.ProductExists | app/use_cases/imports/import_products_from_csv_use_case.rb:122-124 | `product_exists?`: some stored product has exactly this name |
| ImportRun.ProcessRow | app/use_cases/imports/import_products_from_csv_use_case.rb:34-61 | one pass of the loop body: resolve the categories, then skip a row whose product exists, else store the product or append its error; its properties are the `ProcessRow` lemmas below |
| ImportRun.ImportRows | app/use_cases/imports/import_products_from_csv_use_case.rb:33 | the numbered loop: the row at position k is processed as number k + 1 after all the rows before it; its properties are the `Import` lemmas below |
| ImportRun.Import | app/use_cases/imports/import_products_from_csv_use_case.rb:33-62 | a run over the rows `parsed_csv` returns, from the given store and an empty error list |
| ImportRun.TaxonIds | app/use_cases/imports/import_products_from_csv_use_case.rb:107 | the product gets every resolved taxon, in order |
| ImportRun.CreateProduct | app/use_cases/imports/import_products_from_csv_use_case.rb:93-116 | the product is created if and only if it is valid. It then has the row's name, description and price, the `Default` shipping category, all the row's taxons in order, and zero stock. Otherwise there is exactly one error, carrying the row index and the validation messages |
| ImportRun.ImportRowsStep | app/use_cases/imports/import_products_from_csv_use_case.rb:33 | the row at position i is processed with number i + 1, after all the rows before it |
| ImportRun.ProcessRowResolvesCategories | app/use_cases/imports/import_products_from_csv_use_case.rb:42-58 | every row, skipped or not, leaves each of its category names with a matching child of the root |
| ImportRun.ProcessRowSkipsExisting | app/use_cases/imports/import_products_from_csv_use_case.rb:58 | a row whose name names a product adds no product and no error |
| ImportRun.ProcessRowCreates | app/use_cases/imports/import_products_from_csv_use_case.rb:58-61 | a new, valid row appends exactly one product with the row's name and at most three taxons, and adds no error |
| ImportRun.ProcessRowRecordsFailure | app/use_cases/imports/import_products_from_csv_use_case.rb:113-115 | a new row that fails validation adds no product and exactly one error, carrying its number |
| ImportRun.ProcessRowErrors | app/use_cases/imports/import_products_from_csv_use_case.rb:58-61 | a row adds an error if and only if its name is new and it fails validation |
| ImportRun.ProcessRowExtends | app/use_cases/imports/import_products_from_csv_use_case.rb:33-62 | a row only appends to the store and to the errors, and adds at most one product or error |
| ImportRun.ImportRowsExtends | app/use_cases/imports/import_products_from_csv_use_case.rb:33-62 | a run only appends, and adds at most one product or error per row |
| ImportRun.ErrorsInRowOrderStep | app/use_cases/imports/import_products_from_csv_use_case.rb:114 | appending the current row's error keeps the numbers in range and increasing |
| ImportRun.ImportErrorsInRowOrder | app/use_cases/imports/import_products_from_csv_use_case.rb:33-62 | every error names a row of the run, and the numbers strictly increase, so no row has two errors |
| ImportRun.ErrorsForStep | app/use_cases/imports/import_products_from_csv_use_case.rb:114 | one more row affects only the entries that carry its own number |
| ImportRun.ImportRowErrorIff | app/use_cases/imports/import_products_from_csv_use_case.rb:33-62 | row k has an error entry if and only if, when it is reached, no product has its name and it fails validation. The entry carries that row's messages |
| ImportRun.ImportEarlierRowErrorIff | app/use_cases/imports/import_products_from_csv_use_case.rb:33-62 | the same, for a row before the last: later rows do not change it, so processing continues |
| ImportRun.ImportLastRowErrorIff | app/use_cases/imports/import_products_from_csv_use_case.rb:58-61 | the same, for the last row |
| ImportRun.ImportLaterRowKeepsErrorsFor | app/use_cases/imports/import_products_from_csv_use_case.rb:33-62 | a later row leaves the entries for earlier numbers as they were |
| ImportRun.ImportAllValidNoErrors | app/use_cases/imports/import_products_from_csv_use_case.rb:93-116 | when every row passes validation, nothing is collected |
| ImportRun.ImportKeepsProductNamesDistinct | app/use_cases/imports/import_products_from_csv_use_case.rb:58 | the existence check means a run never creates a second product with one name |
| ImportRun.ProcessRowKeepsProductNamesDistinct | app/use_cases/imports/import_products_from_csv_use_case.rb:58 | the same for one row |
| ImportRun.ImportKeepsTaxonsWellFormed | app/use_cases/imports/import_products_from_csv_use_case.rb:42-56 | a run keeps sibling permalinks distinct and ids distinct |
| ImportRun.ProcessRowKeepsTaxonsWellFormed | app/use_cases/imports/import_products_from_csv_use_case.rb:42-56 | the same for one row |
| ImportRun.CoveredGrows | app/use_cases/imports/import_products_from_csv_use_case.rb:42-58 | a taxon or product found stays found as the store grows |
| ImportRun.ProcessRowCovers | app/use_cases/imports/import_products_from_csv_use_case.rb:42-61 | after a row, its categories exist and its product exists unless it failed validation |
| ImportRun.ImportRowsCovers | app/use_cases/imports/import_products_from_csv_use_case.rb:33-62 | after a run, the same holds for every row of the run |
| ImportRun.CoveredRowsChangeNothing | app/use_cases/imports/import_products_from_csv_use_case.rb:42-58 | rows whose categories and products exist change neither table |
| ImportRun.ReimportCreatesNothing | app/use_cases/imports/import_products_from_csv_use_case.rb:33-62 | importing the same rows a second time creates no taxon and no product |
| ImportRun.BlankRowIgnored | app/use_cases/imports/import_products_from_csv_use_case.rb:88-90 | an all-blank row gets no number: the run is exactly as if it were not in the file |
| ImportUseCase.ImportProductsFromCsv.constructor | app/models/spree/product_import.rb:5 | a new use case reports to an import whose status is `pending` |
| ImportUseCase.ImportProductsFromCsv.ResolvePermalink | app/use_cases/imports/import_products_from_csv_use_case.rb:49-51 | the loop computes `ResolvedPermalink`, so no sibling has the permalink it stops at |
| ImportUseCase.ImportProductsFromCsv.FindOrCreateChild | app/use_cases/imports/import_products_from_csv_use_case.rb:43-54 | leaves the taxon table and returns the taxon as `FindOrCreate` says, and changes nothing else |
| ImportUseCase.ImportProductsFromCsv.ResolveCategoryNames | app/use_cases/imports/import_products_from_csv_use_case.rb:41-56 | leaves the taxon table and returns the list as `ResolveCategories` says |
| ImportUseCase.ImportProductsFromCsv.CreateProduct | app/use_cases/imports/import_products_from_csv_use_case.rb:93-116 | all-or-nothing: the whole product is appended with the list unchanged, or the product table is unchanged and the list gains the row's error |
| ImportUseCase.ImportProductsFromCsv.UpdateProductImport | app/use_cases/imports/import_products_from_csv_use_case.rb:79-85 | the status is `success` if and only if no error was collected, and then `import_errors` is not written. Otherwise it is `failed` and `import_errors` is the full list |
| ImportUseCase.ImportProductsFromCsv.ImportCsv | app/use_cases/imports/import_products_from_csv_use_case.rb:25-65 | the tables end as `ImportRows` over the parsed rows leaves them. The status is `success` exactly when that run collected no error; otherwise it is `failed` with all of them |

## Left out

- CSV tokenising, quoting and encodings (line 88) belong to the CSV library. A line arrives already split into cells, with `None` for `nil`. Joining the kept lines with `"\r\n"` is not modelled either.
- `CsvRows.AllBlank`: `to_hash` is taken to keep, for each header name, the value of the first column under it, as the `csv` library of current Ruby versions does. Header converters are not used by the import and are not modelled.
- `ImportUseCase.ImportProductsFromCsv.ImportCsv`: the model always ends in `success` or `failed`, but the source writes the status only at line 64. An exception that escapes `import_csv` skips that line. Examples are a malformed file raised by `CSV.parse` (line 88), a failing `taxon.save!` (line 54), or an error other than `RecordInvalid` in `create_product`. The status then stays `pending`, and the taxons and products of the rows already processed stay stored. Exceptions are not modelled, so this aborted outcome is not.
- `ImportUseCase.ImportProductsFromCsv.ImportCsv`: the lookup of the categories taxonomy and of its root taxon (lines 28-31, 126-134) is not modelled. Their ids are parameters.
- `Taxonomy.FindOrCreate`: `set_permalink` (line 48) is Spree code that is not part of this model. The starting permalink is the uninterpreted `slug(name)`.
- `Taxonomy.FindOrCreate`: the taxon `save!` (line 54) is assumed to succeed. Spree's taxon validations are not part of this model, and an exception there, which nothing rescues, would end the import.
- `Taxonomy.FindOrCreate`: the id of a new taxon is `FreshId`, a number above every stored id, standing for the one the database assigns.
- `Taxonomy.FirstMatchingChild`: `ILIKE` is modelled as equality after ASCII case folding. Its `%` and `_` wildcards and non-ASCII case folding are not modelled. `first` is taken in store order.
- `Permalinks.NumericSuffix`: Ruby's `$` matches at the end of every line, so the `gsub` at line 75 would replace every `_<digits>` that ends a line. Permalinks are taken to hold no line breaks, so only the end of the string is modelled.
- `CsvRows.IsBlank`: `blank?` is modelled for ASCII whitespace only, not for other Unicode space characters.
- `ImportRun.CreateProduct`: whether `Product.create!`, the taxon association and the stock update succeed is the abstract `valid(row)`, with `messages(row)` as the errors. Spree's validators, including price parsing and a product given the same taxon twice, are not part of this model. Exceptions other than `RecordInvalid` are not modelled.
- `ImportRun.CreateProduct`: `stores: Spree::Store.all`, `available_on: Time.current` and the stock item record are not modelled. The product records only zero stock on hand.
- `ImportRun.CreateProduct`: `find_or_create_shipping_category('Default')` (lines 60, 118-120) is the constant `DefaultShippingCategory`.
- `if taxons.length` (line 106) is always true in Ruby, so the association is unconditional. The unused local at line 39 is not modelled.
- Transactions (line 96) appear only as the all-or-nothing outcome of one product. Concurrent imports are not modelled.
- `ImportRun.ProductExists`: `product_exists?` is modelled as exact name equality over the product table. Soft-deleted products and database collation are not modelled.
- The job `CreateProductsFromCsvJob` (`app/jobs/create_products_from_csv_job.rb`) is a queue wrapper. Its guard against a blank file (line 5) and the job queue are not modelled.
- `Spree::ProductImport` is used only for its status values and its `import_errors`. Its user association is not modelled.
