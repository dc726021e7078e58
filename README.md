# CatalogApp CSV import, modelled in Dafny

CatalogApp loads a product catalogue from a CSV file. Each line after the
header holds four fields: product name, product code, category name and
category code. The import turns the file's rows into new `Category` and
`Product` rows and appends them to the two tables. A separate query returns
one page of products, optionally filtered by a fragment of the product code.

This project models three C# classes:

- `CsvValidator` decides whether a file path is acceptable and whether one
  line is a valid record. It also runs the uniqueness check on a batch's
  product codes.
- `CsvImportService` covers reading the lines, computing the new categories
  and products, and running the import.
- `CatalogService.GetProductsAsync` covers filtering, counting and paging.

Modules:

- `Wrappers` defines `Option`, which stands for C# `null`.
- `Text` holds the string operations the code uses, defined on `seq<char>`:
  `Split`, `Trim`, `ToUpper`/`ToLower`, `Contains`, `Path.GetExtension` and
  `string.Join`.
- `Collections` holds the LINQ operators, as functions on sequences:
  `DistinctBy`, a `Where` over keys, `Distinct`, `Count` and `Where`.
- `Entities` holds `Category`, `Product`, `CsvRecord` and `ProductDTO`.
- `CatalogStore` holds `Store`, a class that stands for what the two
  repositories see: each table together with the rows staged in it by
  `AddRangeAsync`. It has one `seq` field per table, and the unique indexes
  on `Code` are its `Valid()` invariant.
- `CsvValidator`, `CsvImportService` and `CatalogService` model the three
  classes. `CsvValidator` also holds `Intersect`, the LINQ operator that
  only the uniqueness check uses.

How the model reads the source:

- **Inputs that the model takes as parameters.**
  - File existence is the parameter `fileExists`.
  - The lines of the import file are a `seq<string>`. `None` means that
    `File.ReadAllLines` throws.
  - `Guid.NewGuid()` and `DateTime.UtcNow` come from a `stamp` function,
    indexed by the row's position.
  - An exception from a repository step is a `StoreFault` parameter.
- **State.**
  - `ImportCsv` is a method on a `Store`.
  - `ValidateUniqueProductCodes` updates an `ErrorSummary` object, which
    models the C# `Dictionary<string,string>` passed to it.
  - `ReadAndValidateCsv` is a method with a loop over the lines.
  - Everything else is a function.

Where the service as written and the rest of the repository point different
ways, the model follows the service as written:

- **The import skips the validator's checks.**
  - `CsvValidator` and its tests are part of the repository, but
    `ImportCsvAsync` never calls `CsvValidator.ValidateLine`,
    `ValidateFile` or `ValidateUniqueProductCodes`.
  - It keeps every line that has four fields. Fields are trimmed, but codes
    are not upper-cased and empty fields are not rejected.
  - There is no uniqueness gate on the batch before the write.
- **The product's category is never set.** `GetNewProductsAsync` does not
  set `CategoryCode`, so every product it creates has an empty category
  code.
- **No transaction is used.**
  - The tests build the service with five arguments, the first a
    transaction manager (Catalog.Tests/Service/CsvImportServiceTests.cs:37-43),
    but the service's constructor takes three
    (Catalog.Service/CsvImportService.cs:15-20) and has no unit of work.
  - A failure in the product step leaves the categories appended: there is
    no rollback.
  - The exception is caught and logged, and never re-raised.
  - `SaveChangesAsync` is never called.

## Model

| member | source | states |
|---|---|---|
| CsvValidator.ValidateFile | Catalog.Service/Utils/CsvValidator.cs:11-32 | The three tests in the source's order: blank path, missing file, extension. Its contract is `ValidateFileSpec`. |
| CsvValidator.ValidateFileSpec | Catalog.Service/Utils/CsvValidator.cs:11-32 | A path is accepted exactly when it is present, is not blank, names an existing file, and ends in ".csv" in any case. |
| Text.CsvExtension | Catalog.Service/Utils/CsvValidator.cs:25 | The lower-cased `Path.GetExtension` result is ".csv" exactly when the path's last four characters are ".csv", ignoring case. |
| CsvValidator.ValidateLine | Catalog.Service/Utils/CsvValidator.cs:34-69 | The method returns true exactly when it produces a record. |
| CsvValidator.ValidateLineAccepts | Catalog.Service/Utils/CsvValidator.cs:42-68 | A line written from four comma-free, non-blank fields is accepted. Its record is the fields trimmed, with both codes upper-cased. |
| CsvValidator.ValidateLineRoundTrip | Catalog.Service/Utils/CsvValidator.cs:42-68 | A canonical record, meaning trimmed, comma-free and non-empty with upper-case codes, comes back unchanged from its own line. |
| CsvValidator.ValidateLineSound | Catalog.Service/Utils/CsvValidator.cs:34-69 | An accepted line is present and is four well-formed fields joined by ','. The record is their normal form: trimmed, with upper-case codes and no empty field. |
| CsvValidator.ValidateLineRejects | Catalog.Service/Utils/CsvValidator.cs:37-58 | A null or blank line is rejected with no record. So is a line without exactly three commas, and a line with a blank field. |
| CsvValidator.NormalizeSpec | Catalog.Service/Utils/CsvValidator.cs:49-55 | Normalizing well-formed fields gives a canonical record. A canonical record is its own normal form. |
| CsvValidator.FormatSplits | Catalog.Service/Utils/CsvValidator.cs:42-44 | Splitting four comma-free fields joined by ',' gives back those four fields, and the line is not blank. |
| CsvValidator.DuplicateCodes | Catalog.Service/Utils/CsvValidator.cs:74-75 | A code is listed exactly when it occurs more than once in the batch. No code is listed twice. The codes are listed in the order of their first occurrence in the batch, as `GroupBy` yields its groups. |
| CsvValidator.Intersect | Catalog.Service/Utils/CsvValidator.cs:85-86 | A code is listed exactly when it is both in the batch and in the store. No code is listed twice. The codes are listed in the order of their first occurrence in the batch. |
| Collections.DistinctFromOrder | Catalog.Service/Utils/CsvValidator.cs:75 | `Distinct` yields the values in the order of their first occurrence. |
| Collections.FilterOrder | Catalog.Service/Utils/CsvValidator.cs:75 | `Where` keeps the survivors in the order they had. |
| CsvValidator.GateSpec | Catalog.Service/Utils/CsvValidator.cs:71-97 | Both lists are empty exactly when no batch code repeats and none is already stored. |
| CsvValidator.ValidateUniqueProductCodes | Catalog.Service/Utils/CsvValidator.cs:71-97 | The result is true exactly when the batch is unique. Each check that finds codes writes its own key, with the codes joined by ", ". No other key changes. A true result leaves the dictionary as it was. |
| CsvValidator.ErrorSummary.Set | Catalog.Service/Utils/CsvValidator.cs:81 | The indexer's setter adds or overwrites one key and leaves the rest. |
| CsvValidator.ValidateFileExamples | Catalog.Tests/Utils/CsvValidatorTests.cs:21-54 | An existing "test_valid.csv" is accepted. A missing "non_existing.csv" is rejected. An existing "invalid.txt" is rejected. A null or blank path is rejected. |
| CsvValidator.ValidLineExample | Catalog.Tests/Utils/CsvValidatorTests.cs:57-67 | "Product01,P01,Category01,C01" is accepted, with the codes P01 and C01. |
| CsvValidator.ShortLineExample | Catalog.Tests/Utils/CsvValidatorTests.cs:70-89 | A line with three fields, an empty line and a null line are each rejected with no record. |
| CsvValidator.DuplicateCodesExample | Catalog.Tests/Utils/CsvValidatorTests.cs:92-150 | P01 and P02 against an empty store pass. P01 twice is a duplicate within the file. P01 against a stored P01 is a duplicate of the store. |
| CsvImportService.ParseRow | Catalog.Service/CsvImportService.cs:52-60 | A line becomes a record exactly when it holds exactly three commas, that is, four fields. |
| CsvImportService.ParseRowRoundTrip | Catalog.Service/CsvImportService.cs:52-60 | Trimmed, comma-free fields written as a line parse back to the same record. |
| CsvImportService.ParseRowFormat | Catalog.Service/CsvImportService.cs:52-60 | Any four comma-free fields written as a line parse back trimmed. Case and empty fields are kept. |
| CsvImportService.ImportRuleIsWeaker | Catalog.Service/CsvImportService.cs:52-60 | Every line `ValidateLine` accepts is kept by the import, with the same record up to upper-casing of the codes. The line ",,," is kept by the import but rejected by `ValidateLine`. |
| CsvImportService.ValidRecords | Catalog.Service/CsvImportService.cs:50-61 | The records of the lines that parse, in file order. Its contract is `PartitionSpec` and `PartitionAppend`. |
| CsvImportService.SkippedLines | Catalog.Service/CsvImportService.cs:50-61 | The lines that do not parse, verbatim, in file order. Its contract is `PartitionSpec` and `PartitionAppend`. |
| CsvImportService.PartitionSpec | Catalog.Service/CsvImportService.cs:50-60 | Every body line is either kept or skipped. Skipped lines are ones that do not parse. Each kept record comes from a line that parses to it. |
| CsvImportService.PartitionAppend | Catalog.Service/CsvImportService.cs:50-60 | The records kept and the lines skipped keep file order: both distribute over concatenation of the lines. |
| CsvImportService.ReadAndValidateCsv | Catalog.Service/CsvImportService.cs:44-63 | The lines after the header are split into kept records and skipped raw lines. `hasErrors` becomes true exactly when it already was, or when some line was skipped. |
| CsvImportService.HeaderGoodAndBadLine | Catalog.Service/CsvImportService.cs:50-60 | Of a header, a good line and a bad line, the good line's record is kept and the bad line is skipped. The header is never read. |
| CsvImportService.HeaderGoodAndShortLine | Catalog.Service/CsvImportService.cs:50-60 | Take a header, a line written from a trimmed record, and a line of fewer or more than four fields. The import keeps exactly that record and skips exactly the second line. |
| CsvImportService.WrongFieldCount | Catalog.Service/CsvImportService.cs:52-57 | Comma-free fields other than four in number, joined by ',', are not a row. |
| CsvImportService.CategoryCandidateKeys | Catalog.Service/CsvImportService.cs:67-69 | The candidate categories carry exactly the rows' category codes. |
| CsvImportService.ProductCandidateKeys | Catalog.Service/CsvImportService.cs:82-84 | The candidate products carry exactly the rows' product codes. |
| CsvImportService.NewCategories | Catalog.Service/CsvImportService.cs:65-78 | `DistinctBy` on the category code, then the codes already stored are dropped. Its contract is `NewCategoriesSpec` and `NewCategoriesSnoc`. |
| CsvImportService.NewProducts | Catalog.Service/CsvImportService.cs:80-93 | `DistinctBy` on the product code, then the codes already stored are dropped. Its contract is `NewProductsSpec` and `NewProductsSnoc`. |
| Collections.DistinctBy | Catalog.Service/CsvImportService.cs:67-70 | `Enumerable.DistinctBy`: the first element with each key, in order. Its contract is `DistinctByFromSpec` and `DistinctByFromSnoc`. |
| Collections.DistinctByFromSpec | Catalog.Service/CsvImportService.cs:69 | The result's keys are unique and are exactly the input's keys not yet seen. Each element is the first of the input with its key. |
| Collections.DistinctByFromSnoc | Catalog.Service/CsvImportService.cs:69 | One more input element adds itself at the end of the output exactly when its key is new. |
| Collections.ExceptKeys | Catalog.Service/CsvImportService.cs:73-75 | `Where` on "the code is not stored". Its contract is `ExceptKeysSpec` and `ExceptKeysAppend`. |
| Collections.ExceptKeysSpec | Catalog.Service/CsvImportService.cs:73-75 | An element is kept exactly when its key is not excluded. The kept keys are the input's keys minus the excluded ones. Unique keys stay unique. |
| Collections.ExceptKeysAppend | Catalog.Service/CsvImportService.cs:73-75 | The filter keeps order: it distributes over concatenation. |
| CsvImportService.NewCategoriesSpec | Catalog.Service/CsvImportService.cs:65-78 | The new categories have unique codes. Their codes are exactly the rows' codes minus the stored ones. Each comes from the first row with its code. |
| CsvImportService.NewProductsSpec | Catalog.Service/CsvImportService.cs:80-93 | The new products have unique codes. Their codes are exactly the rows' codes minus the stored ones. Each comes from the first row with its code. |
| CsvImportService.NewCategoriesSnoc | Catalog.Service/CsvImportService.cs:65-78 | One more row adds its category at the end exactly when its code is neither in an earlier row nor in the store. |
| CsvImportService.NewProductsSnoc | Catalog.Service/CsvImportService.cs:80-93 | One more row adds its product at the end exactly when its code is neither in an earlier row nor in the store. |
| CsvImportService.SharedCategoryCode | Catalog.Service/CsvImportService.cs:65-78 | Two rows that share a category code, against an empty table, give exactly one new category: the first row's. |
| CsvImportService.NewProductsHaveNoCategory | Catalog.Service/CsvImportService.cs:82-83 | As written, every new product has an empty `CategoryCode`. |
| CsvImportService.CategoriesImportIdempotent | Catalog.Service/CsvImportService.cs:65-78 | Appending the new categories keeps the table's codes unique. Computing them again against the grown table gives nothing. |
| CsvImportService.ProductsImportIdempotent | Catalog.Service/CsvImportService.cs:80-93 | Appending the new products keeps the table's codes unique. Computing them again against the grown table gives nothing. |
| CsvImportService.ImportCsv | Catalog.Service/CsvImportService.cs:22-42 | The unique indexes hold afterwards. Success is reported exactly when the file could be read and no repository step threw. The new categories are appended once the file is read, unless the category step threw. The new products are appended only on success. Nothing is rolled back. |
| CatalogStore.Store.AddCategories | Catalog.Respository/CategoryRepository.cs:23-26 | `AddRangeAsync` appends the given categories and leaves the products unchanged. |
| CatalogStore.Store.AddProducts | Catalog.Respository/ProductRepository.cs:21-24 | `AddRangeAsync` appends the given products and leaves the categories unchanged. |
| CatalogService.GetProducts | Catalog.Service/CatalogService.cs:19-52 | The page result holds three things. `totalItems` is the number of products whose code contains the fragment. `totalPages` is the least page count that holds them. The page has as many products as remain from `(page-1)*pageSize`, at most `pageSize`. Each product's id, name, code and category code are copied from the filtered product at that position. |
| CatalogService.WithCodeContaining | Catalog.Service/CatalogService.cs:25-28 | `Where` on "the code contains the fragment". Its contract is `WithCodeContainingSpec` and `WithCodeContainingAppend`. |
| CatalogService.CodeFilter | Catalog.Service/CatalogService.cs:25-28 | The filter applies only when a non-empty fragment is given. Its contract is `EmptyFragmentKeepsAll`. |
| CatalogService.WithCodeContainingSpec | Catalog.Service/CatalogService.cs:25-28 | The filter keeps exactly the products whose code has the fragment as a contiguous block. |
| CatalogService.WithCodeContainingAppend | Catalog.Service/CatalogService.cs:25-28 | The filter keeps order: it distributes over concatenation. |
| CatalogService.EmptyFragmentKeepsAll | Catalog.Service/CatalogService.cs:25-28 | A null or empty fragment filters nothing. |
| Text.ContainsSpec | Catalog.Service/CatalogService.cs:27 | `String.Contains` holds exactly when the fragment occurs as a contiguous block. |
| CatalogService.CeilDiv | Catalog.Service/CatalogService.cs:31 | The ceiling of n/d is the least q with n <= q*d. |
| CatalogService.FirstPagesSpec | Catalog.Service/CatalogService.cs:33-43 | Pages 1 to n, one after another, are the filtered products before the start of page n+1. |
| CatalogService.PagesPartition | Catalog.Service/CatalogService.cs:30-43 | Pages 1 to `totalPages` together are every filtered product once, in order. Every page after the last one is empty. |
| CatalogService.FirstPageExample | Catalog.Tests/Service/CatalogServiceTests.cs:29-47 | Three products in pages of two: the first page holds the first two. There are 2 pages and 3 items. |
| CatalogService.CodeFilterExample | Catalog.Tests/Service/CatalogServiceTests.cs:50-68 | Products P01 and P02 filtered by "P02": one page holding P02 alone, with 1 item. |
| Text.SplitJoin | Catalog.Service/Utils/CsvValidator.cs:42 | `Split` undoes `Join` for comma-free pieces. |
| Text.JoinSplit | Catalog.Service/Utils/CsvValidator.cs:42 | `Join` undoes `Split`. |
| Text.TrimSpec | Catalog.Service/Utils/CsvValidator.cs:49-52 | `Trim` cuts a blank prefix and a blank suffix. The result neither starts nor ends with whitespace. It is empty exactly when the input is blank. |
| Text.ToUpperSpec | Catalog.Service/Utils/CsvValidator.cs:50 | `ToUpper` leaves no lower-case letter. It fixes upper-case strings. It keeps blankness and trimmedness. |

## Left out

- **Logging.** Serilog / `ILogger` calls are not modelled, nor is the
  success message. `ImportCsv` returns whether that message would be logged.
- **Reading the file.** `File.ReadAllLines` is replaced by the file's lines
  as an input. Its exception is the `None` input.
- **File existence.** `File.Exists` is the `fileExists` parameter.
- **The database.** Entity Framework, `DbSet`, `AsNoTracking` and the
  asynchronous task machinery are not modelled. A repository is a sequence
  field of `Store`, and the repositories' `GetAll...Async` are reads of that
  field. Other failures of the store are covered only as a `StoreFault`
  parameter naming which step throws.
- **Staged rows.** The model treats each `AddRangeAsync` as saved. In the program,
  `AddRangeAsync` only stages the rows in the `DbContext`, nothing calls
  `SaveChangesAsync`, and `GetAll...Async` query the database with
  `AsNoTracking`, so staged rows are invisible to them. A single
  `ImportCsv` is unaffected, since each table is read before it is appended.
  But `CategoriesImportIdempotent` and `ProductsImportIdempotent` describe
  the model, in which a second import finds nothing new. In the program as
  written, a second import in a fresh context stages the same rows again.
- **Transactions.** `DBTransactionManager` is not modelled, and neither is
  `SaveChangesAsync`. The shown service never calls them.
- **The unused dictionary.** The `Dictionary<string,int>` that
  `ImportCsvAsync` passes to `ReadAndValidateCsv` is never used there. The
  model drops it.
- **Guids and clocks.** `Guid.NewGuid()` and `DateTime.UtcNow` are the
  `stamp` parameter. The model does not claim the identities are distinct.
- Text.IsWhiteSpace: covers ASCII only, that is, six whitespace
  characters. .NET's Unicode whitespace is not modelled.
- Text.ToUpper: maps the letters a-z only. Culture-sensitive case mapping
  is not modelled.
- CatalogService.GetProducts: the page start `(page - 1) * pageSize` is an
  unbounded integer, so 32-bit overflow for very large pages is not
  modelled. `Math.Ceiling` over `double` is an integer ceiling, which is
  exact for counts below 2^53.
- CatalogService.GetProducts: assumes in-memory LINQ semantics, as the
  tests get from `List.AsQueryable()`. In the program the query is an
  Entity Framework `IQueryable`, so `Where`, `Count`, `Skip` and `Take` run
  as SQL. There is no `OrderBy` before `Skip`/`Take`, so the database
  promises no row order. The model assumes one stable order, the order of
  the product sequence, which `PagesPartition` relies on. `Contains` follows
  the column's collation there, not the ordinal comparison of
  `Text.Contains`.
- CatalogService.GetProducts: requires `page >= 1` and `pageSize >= 1`, the
  guard that `CatalogController` applies before calling it. What the service
  does with other values is not modelled, and neither is the rethrown
  exception.
- Text.Extension: stops the search for the last `.` at `/` and `\`, as
  `Path.GetExtension` does on Windows. On Unix only `/` stops it. The
  result of `ValidateFile` is the same either way: `CsvExtension` shows it
  depends only on the path's last four characters.
- **The product DTO.** `ProductDTO` is the record of the four copied
  fields.
- **The product-category reference.** The deletion cascade and foreign key
  between Product.CategoryCode and Category.Code are not modelled. The
  store's invariant is the two unique indexes only.
