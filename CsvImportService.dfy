/**
 * CsvImportService: read the import file's lines, turn the data lines into
 * records, work out which categories and products are new to the store, and
 * append them, categories first, swallowing any failure.
 */
module CsvImportService {
  import opened Wrappers
  import opened Text
  import opened Collections
  import opened Entities
  import opened CatalogStore
  import CsvValidator

  // ---------------------------------------------------------------- reading

  /**
   * The import's own line rule: a line is a record exactly when splitting it
   * on ',' gives four fields; the fields are trimmed and nothing else, so
   * case is kept and empty fields get through.
   */
  function ParseRow(line: string): (r: Option<CsvRecord>)
    ensures r.Some? <==> Occurrences(line, ',') == 3
  {
    var data := Split(line, ',');
    if |data| != 4 then None
    else Some(CsvRecord(Trim(data[0]), Trim(data[1]), Trim(data[2]), Trim(data[3])))
  }

  /** The record's fields trimmed, case untouched. */
  function Trimmed(raw: CsvRecord): CsvRecord
  {
    CsvRecord(Trim(raw.productName), Trim(raw.productCode), Trim(raw.categoryName), Trim(raw.categoryCode))
  }

  /** Any four fields without ',' written as a line come back trimmed, whatever their case or emptiness. */
  lemma ParseRowFormat(raw: CsvRecord)
    requires ',' !in raw.productName && ',' !in raw.productCode
    requires ',' !in raw.categoryName && ',' !in raw.categoryCode
    ensures ParseRow(CsvValidator.Format(raw)) == Some(Trimmed(raw))
  {
    CsvValidator.FormatSplits(raw);
  }

  /** Trimmed fields without ',' written as a line parse back to the same record. */
  lemma ParseRowRoundTrip(rec: CsvRecord)
    requires ',' !in rec.productName && ',' !in rec.productCode
    requires ',' !in rec.categoryName && ',' !in rec.categoryCode
    requires IsTrimmed(rec.productName) && IsTrimmed(rec.productCode)
    requires IsTrimmed(rec.categoryName) && IsTrimmed(rec.categoryCode)
    ensures ParseRow(CsvValidator.Format(rec)) == Some(rec)
  {
    ParseRowFormat(rec);
    TrimTrimmed(rec.productName);
    TrimTrimmed(rec.productCode);
    TrimTrimmed(rec.categoryName);
    TrimTrimmed(rec.categoryCode);
  }

  /** The two codes upper-cased, the rest kept. */
  function UpperCodes(rec: CsvRecord): CsvRecord
  {
    CsvRecord(rec.productName, ToUpper(rec.productCode), rec.categoryName, ToUpper(rec.categoryCode))
  }

  /**
   * The import's rule accepts every line CsvValidator.ValidateLine accepts,
   * and the validator's record is the import's one with upper-cased codes;
   * the converse fails, since the import keeps lines with empty fields.
   */
  lemma ImportRuleIsWeaker(line: string)
    ensures CsvValidator.ValidateLine(Some(line)).0 ==>
      ParseRow(line).Some? && CsvValidator.ValidateLine(Some(line)).1 == Some(UpperCodes(ParseRow(line).value))
    ensures ParseRow(",,,") == Some(CsvRecord("", "", "", "")) && !CsvValidator.ValidateLine(Some(",,,")).0
  {
    var empty := CsvRecord("", "", "", "");
    assert CsvValidator.Format(empty) == ",,,";
    ParseRowFormat(empty);
    CsvValidator.FormatSplits(empty);
    assert IsBlank(Split(",,,", ',')[0]);
    CsvValidator.ValidateLineRejects(Some(",,,"));
  }

  /** lines.Skip(1): every line after the header. */
  function Body(lines: seq<string>): seq<string>
  {
    if lines == [] then [] else lines[1..]
  }

  /** The records of the lines that pass ParseRow, in file order. */
  function ValidRecords(lines: seq<string>): seq<CsvRecord>
  {
    if lines == [] then []
    else
      var last := lines[|lines| - 1];
      ValidRecords(lines[..|lines| - 1]) + (if ParseRow(last).Some? then [ParseRow(last).value] else [])
  }

  /** The lines that fail ParseRow, verbatim, in file order. */
  function SkippedLines(lines: seq<string>): seq<string>
  {
    if lines == [] then []
    else
      var last := lines[|lines| - 1];
      SkippedLines(lines[..|lines| - 1]) + (if ParseRow(last).Some? then [] else [last])
  }

  /**
   * Reading partitions the lines: each line contributes either its record or
   * itself, never both and never neither, order is kept in both outputs
   * (they distribute over concatenation), and only failing lines are skipped.
   */
  lemma {:induction false} PartitionSpec(lines: seq<string>)
    ensures |ValidRecords(lines)| + |SkippedLines(lines)| == |lines|
    ensures forall l :: l in SkippedLines(lines) ==> l in lines && ParseRow(l).None?
    ensures forall r :: r in ValidRecords(lines) ==> exists l :: l in lines && ParseRow(l) == Some(r)
  {
    if lines != [] {
      var init, last := lines[..|lines| - 1], lines[|lines| - 1];
      PartitionSpec(init);
      assert lines == init + [last];
      forall r | r in ValidRecords(lines) ensures exists l :: l in lines && ParseRow(l) == Some(r) {
        if r in ValidRecords(init) {
          var l :| l in init && ParseRow(l) == Some(r);
          assert l in lines;
        } else {
          assert ParseRow(last) == Some(r);
        }
      }
    }
  }

  lemma {:induction false} PartitionAppend(a: seq<string>, b: seq<string>)
    ensures ValidRecords(a + b) == ValidRecords(a) + ValidRecords(b)
    ensures SkippedLines(a + b) == SkippedLines(a) + SkippedLines(b)
  {
    if b == [] {
      assert a + b == a;
    } else {
      var binit := b[..|b| - 1];
      assert (a + b)[..|a + b| - 1] == a + binit;
      assert (a + b)[|a + b| - 1] == b[|b| - 1];
      PartitionAppend(a, binit);
    }
  }

  /**
   * ReadAndValidateCsv over the lines File.ReadAllLines returned: skip the
   * header, keep each four-field line as a record and each other line
   * verbatim, and raise the caller's error flag when a line was skipped.
   */
  method ReadAndValidateCsv(lines: seq<string>, hasErrorsIn: bool)
    returns (validData: seq<CsvRecord>, skippedRecords: seq<string>, hasErrors: bool)
    ensures validData == ValidRecords(Body(lines))
    ensures skippedRecords == SkippedLines(Body(lines))
    ensures hasErrors <==> hasErrorsIn || skippedRecords != []
  {
    validData, skippedRecords, hasErrors := [], [], hasErrorsIn;
    var body := Body(lines);
    var i := 0;
    while i < |body|
      invariant 0 <= i <= |body|
      invariant validData == ValidRecords(body[..i])
      invariant skippedRecords == SkippedLines(body[..i])
      invariant hasErrors <==> hasErrorsIn || skippedRecords != []
    {
      var line := body[i];
      assert body[..i + 1][..i] == body[..i];
      var data := ParseRow(line);
      if data.None? {
        skippedRecords := skippedRecords + [line];
        hasErrors := true;
      } else {
        validData := validData + [data.value];
      }
      i := i + 1;
    }
    assert body[..i] == body;
  }

  // ---------------------------------------------------------------- a small file

  /** A single line is kept as its record or skipped. */
  lemma OneLine(line: string)
    ensures ValidRecords([line]) == (if ParseRow(line).Some? then [ParseRow(line).value] else [])
    ensures SkippedLines([line]) == (if ParseRow(line).Some? then [] else [line])
  {
    assert [line][..0] == [];
  }

  /** A line of fields without ',' that are not four is not a row. */
  lemma WrongFieldCount(fields: seq<string>)
    requires 1 <= |fields| && |fields| != 4 && forall i :: 0 <= i < |fields| ==> ',' !in fields[i]
    ensures ParseRow(Join(fields, ",")) == None
  {
    SplitJoin(fields, ',');
  }

  /** Of a header, a line that parses and one that does not, the first is kept and the second skipped. */
  lemma HeaderGoodAndBadLine(header: string, good: string, bad: string)
    requires ParseRow(good).Some? && ParseRow(bad).None?
    ensures ValidRecords(Body([header, good, bad])) == [ParseRow(good).value]
    ensures SkippedLines(Body([header, good, bad])) == [bad]
  {
    var lines := [header, good, bad];
    assert Body(lines) == [good] + [bad];
    OneLine(good);
    OneLine(bad);
    PartitionAppend([good], [bad]);
  }

  /** The same for a line written from a trimmed record and a line with other than four fields. */
  lemma HeaderGoodAndShortLine(header: string, rec: CsvRecord, fields: seq<string>)
    requires ',' !in rec.productName && ',' !in rec.productCode
    requires ',' !in rec.categoryName && ',' !in rec.categoryCode
    requires IsTrimmed(rec.productName) && IsTrimmed(rec.productCode)
    requires IsTrimmed(rec.categoryName) && IsTrimmed(rec.categoryCode)
    requires 1 <= |fields| && |fields| != 4 && forall i :: 0 <= i < |fields| ==> ',' !in fields[i]
    ensures ValidRecords(Body([header, CsvValidator.Format(rec), Join(fields, ",")])) == [rec]
    ensures SkippedLines(Body([header, CsvValidator.Format(rec), Join(fields, ",")])) == [Join(fields, ",")]
  {
    ParseRowRoundTrip(rec);
    WrongFieldCount(fields);
    HeaderGoodAndBadLine(header, CsvValidator.Format(rec), Join(fields, ","));
  }

  // ---------------------------------------------------------------- new categories and products

  /** The category a row describes, with the identity and time it is created with. */
  function CategoryOf(row: CsvRecord, stamp: Stamp): Category
  {
    Category(stamp.id, row.categoryName, row.categoryCode, stamp.created)
  }

  /** The product a row describes; as written, its CategoryCode is never set and stays empty. */
  function ProductOf(row: CsvRecord, stamp: Stamp): Product
  {
    Product(stamp.id, row.productName, row.productCode, "", stamp.created)
  }

  /** validData.Select(x => new Category {...}), row i stamped with stamp(i). */
  function CategoryCandidates(rows: seq<CsvRecord>, stamp: nat -> Stamp): (r: seq<Category>)
    ensures |r| == |rows| && forall i :: 0 <= i < |rows| ==> r[i] == CategoryOf(rows[i], stamp(i))
  {
    seq(|rows|, i requires 0 <= i < |rows| => CategoryOf(rows[i], stamp(i)))
  }

  /** validData.Select(x => new Product {...}), row i stamped with stamp(i). */
  function ProductCandidates(rows: seq<CsvRecord>, stamp: nat -> Stamp): (r: seq<Product>)
    ensures |r| == |rows| && forall i :: 0 <= i < |rows| ==> r[i] == ProductOf(rows[i], stamp(i))
  {
    seq(|rows|, i requires 0 <= i < |rows| => ProductOf(rows[i], stamp(i)))
  }

  /** The category codes the rows mention. */
  function RowCategoryCodes(rows: seq<CsvRecord>): set<string>
  {
    set i | 0 <= i < |rows| :: rows[i].categoryCode
  }

  /** The product codes the rows mention. */
  function RowProductCodes(rows: seq<CsvRecord>): set<string>
  {
    set i | 0 <= i < |rows| :: rows[i].productCode
  }

  /** GetNewCategoriesAsync: DistinctBy(Code), then drop the codes the store already has. */
  function NewCategories(rows: seq<CsvRecord>, existing: seq<Category>, stamp: nat -> Stamp): seq<Category>
  {
    ExceptKeys(DistinctBy(CategoryCandidates(rows, stamp), CategoryKey), CategoryKey, KeySet(existing, CategoryKey))
  }

  /** GetNewProductsAsync: DistinctBy(Code), then drop the codes the store already has. */
  function NewProducts(rows: seq<CsvRecord>, existing: seq<Product>, stamp: nat -> Stamp): seq<Product>
  {
    ExceptKeys(DistinctBy(ProductCandidates(rows, stamp), ProductKey), ProductKey, KeySet(existing, ProductKey))
  }

  lemma CategoryCandidateKeys(rows: seq<CsvRecord>, stamp: nat -> Stamp)
    ensures KeySet(CategoryCandidates(rows, stamp), CategoryKey) == RowCategoryCodes(rows)
  {
    var c := CategoryCandidates(rows, stamp);
    forall k | k in RowCategoryCodes(rows) ensures k in KeySet(c, CategoryKey) {
      var i :| 0 <= i < |rows| && rows[i].categoryCode == k;
      assert CategoryKey(c[i]) == k;
    }
  }

  lemma ProductCandidateKeys(rows: seq<CsvRecord>, stamp: nat -> Stamp)
    ensures KeySet(ProductCandidates(rows, stamp), ProductKey) == RowProductCodes(rows)
  {
    var c := ProductCandidates(rows, stamp);
    forall k | k in RowProductCodes(rows) ensures k in KeySet(c, ProductKey) {
      var i :| 0 <= i < |rows| && rows[i].productCode == k;
      assert ProductKey(c[i]) == k;
    }
  }

  /**
   * The new categories: one per category code of the batch that the store
   * does not have, no code twice, each built from the first row that
   * carries its code.
   */
  lemma NewCategoriesSpec(rows: seq<CsvRecord>, existing: seq<Category>, stamp: nat -> Stamp)
    ensures UniqueKeys(NewCategories(rows, existing, stamp), CategoryKey)
    ensures KeySet(NewCategories(rows, existing, stamp), CategoryKey)
         == RowCategoryCodes(rows) - KeySet(existing, CategoryKey)
    ensures forall c :: c in NewCategories(rows, existing, stamp) ==>
      exists i :: 0 <= i < |rows| && c == CategoryOf(rows[i], stamp(i))
        && forall j :: 0 <= j < i ==> rows[j].categoryCode != c.code
  {
    var cands := CategoryCandidates(rows, stamp);
    var d := DistinctBy(cands, CategoryKey);
    var excluded := KeySet(existing, CategoryKey);
    DistinctByFromSpec(cands, CategoryKey, {});
    ExceptKeysSpec(d, CategoryKey, excluded);
    CategoryCandidateKeys(rows, stamp);
    forall c | c in NewCategories(rows, existing, stamp)
      ensures exists i :: 0 <= i < |rows| && c == CategoryOf(rows[i], stamp(i))
                          && forall j :: 0 <= j < i ==> rows[j].categoryCode != c.code
    {
      assert c in d;
      var i :| 0 <= i < |cands| && cands[i] == c && forall j :: 0 <= j < i ==> CategoryKey(cands[j]) != CategoryKey(c);
      forall j | 0 <= j < i ensures rows[j].categoryCode != c.code {
        assert CategoryKey(cands[j]) == rows[j].categoryCode;
      }
    }
  }

  /** The same for products, keyed on the product code. */
  lemma NewProductsSpec(rows: seq<CsvRecord>, existing: seq<Product>, stamp: nat -> Stamp)
    ensures UniqueKeys(NewProducts(rows, existing, stamp), ProductKey)
    ensures KeySet(NewProducts(rows, existing, stamp), ProductKey)
         == RowProductCodes(rows) - KeySet(existing, ProductKey)
    ensures forall p :: p in NewProducts(rows, existing, stamp) ==>
      exists i :: 0 <= i < |rows| && p == ProductOf(rows[i], stamp(i))
        && forall j :: 0 <= j < i ==> rows[j].productCode != p.code
  {
    var cands := ProductCandidates(rows, stamp);
    var d := DistinctBy(cands, ProductKey);
    var excluded := KeySet(existing, ProductKey);
    DistinctByFromSpec(cands, ProductKey, {});
    ExceptKeysSpec(d, ProductKey, excluded);
    ProductCandidateKeys(rows, stamp);
    forall p | p in NewProducts(rows, existing, stamp)
      ensures exists i :: 0 <= i < |rows| && p == ProductOf(rows[i], stamp(i))
                          && forall j :: 0 <= j < i ==> rows[j].productCode != p.code
    {
      assert p in d;
      var i :| 0 <= i < |cands| && cands[i] == p && forall j :: 0 <= j < i ==> ProductKey(cands[j]) != ProductKey(p);
      forall j | 0 <= j < i ensures rows[j].productCode != p.code {
        assert ProductKey(cands[j]) == rows[j].productCode;
      }
    }
  }

  /**
   * First occurrence wins, in file order: one more row adds its category at
   * the end exactly when neither an earlier row nor the store has its code.
   */
  lemma NewCategoriesSnoc(rows: seq<CsvRecord>, row: CsvRecord, existing: seq<Category>, stamp: nat -> Stamp)
    ensures NewCategories(rows + [row], existing, stamp)
         == NewCategories(rows, existing, stamp)
          + (if row.categoryCode in RowCategoryCodes(rows) + KeySet(existing, CategoryKey) then []
             else [CategoryOf(row, stamp(|rows|))])
  {
    var c := CategoryOf(row, stamp(|rows|));
    var cands := CategoryCandidates(rows, stamp);
    assert CategoryCandidates(rows + [row], stamp) == cands + [c];
    DistinctByFromSnoc(cands, c, CategoryKey, {});
    CategoryCandidateKeys(rows, stamp);
    var excluded := KeySet(existing, CategoryKey);
    var d := DistinctBy(cands, CategoryKey);
    var tail := if CategoryKey(c) in RowCategoryCodes(rows) then [] else [c];
    ExceptKeysAppend(d, tail, CategoryKey, excluded);
    assert ExceptKeys([c], CategoryKey, excluded) == (if CategoryKey(c) in excluded then [] else [c]);
  }

  /** The same for products. */
  lemma NewProductsSnoc(rows: seq<CsvRecord>, row: CsvRecord, existing: seq<Product>, stamp: nat -> Stamp)
    ensures NewProducts(rows + [row], existing, stamp)
         == NewProducts(rows, existing, stamp)
          + (if row.productCode in RowProductCodes(rows) + KeySet(existing, ProductKey) then []
             else [ProductOf(row, stamp(|rows|))])
  {
    var p := ProductOf(row, stamp(|rows|));
    var cands := ProductCandidates(rows, stamp);
    assert ProductCandidates(rows + [row], stamp) == cands + [p];
    DistinctByFromSnoc(cands, p, ProductKey, {});
    ProductCandidateKeys(rows, stamp);
    var excluded := KeySet(existing, ProductKey);
    var d := DistinctBy(cands, ProductKey);
    var tail := if ProductKey(p) in RowProductCodes(rows) then [] else [p];
    ExceptKeysAppend(d, tail, ProductKey, excluded);
    assert ExceptKeys([p], ProductKey, excluded) == (if ProductKey(p) in excluded then [] else [p]);
  }

  /** Two rows sharing a category code, no stored categories: exactly one category, the first row's, is new. */
  lemma SharedCategoryCode(r1: CsvRecord, r2: CsvRecord, stamp: nat -> Stamp)
    requires r1.categoryCode == r2.categoryCode
    ensures NewCategories([r1, r2], [], stamp) == [CategoryOf(r1, stamp(0))]
  {
    NewCategoriesSnoc([], r1, [], stamp);
    NewCategoriesSnoc([r1], r2, [], stamp);
    assert [] + [r1] == [r1] && [r1] + [r2] == [r1, r2];
    assert RowCategoryCodes([r1]) == {r1.categoryCode} by {
      assert [r1][0] == r1;
    }
  }

  /** As written, no imported product gets a category code. */
  lemma NewProductsHaveNoCategory(rows: seq<CsvRecord>, existing: seq<Product>, stamp: nat -> Stamp)
    ensures forall p :: p in NewProducts(rows, existing, stamp) ==> p.categoryCode == ""
  {
    NewProductsSpec(rows, existing, stamp);
  }

  /**
   * Appending the new categories keeps category codes unique, and a second
   * computation over the same rows then finds nothing new.
   */
  lemma CategoriesImportIdempotent(rows: seq<CsvRecord>, existing: seq<Category>, stamp: nat -> Stamp, stamp': nat -> Stamp)
    ensures UniqueKeys(existing, CategoryKey) ==>
      UniqueKeys(existing + NewCategories(rows, existing, stamp), CategoryKey)
    ensures NewCategories(rows, existing + NewCategories(rows, existing, stamp), stamp') == []
  {
    var added := NewCategories(rows, existing, stamp);
    NewCategoriesSpec(rows, existing, stamp);
    if UniqueKeys(existing, CategoryKey) {
      UniqueKeysAppend(existing, added, CategoryKey);
    }
    var after := existing + added;
    KeySetAppend(existing, added, CategoryKey);
    var cands := CategoryCandidates(rows, stamp');
    DistinctByFromSpec(cands, CategoryKey, {});
    CategoryCandidateKeys(rows, stamp');
    ExceptAllKeys(DistinctBy(cands, CategoryKey), CategoryKey, KeySet(after, CategoryKey));
  }

  /** The same for products. */
  lemma ProductsImportIdempotent(rows: seq<CsvRecord>, existing: seq<Product>, stamp: nat -> Stamp, stamp': nat -> Stamp)
    ensures UniqueKeys(existing, ProductKey) ==>
      UniqueKeys(existing + NewProducts(rows, existing, stamp), ProductKey)
    ensures NewProducts(rows, existing + NewProducts(rows, existing, stamp), stamp') == []
  {
    var added := NewProducts(rows, existing, stamp);
    NewProductsSpec(rows, existing, stamp);
    if UniqueKeys(existing, ProductKey) {
      UniqueKeysAppend(existing, added, ProductKey);
    }
    var after := existing + added;
    KeySetAppend(existing, added, ProductKey);
    var cands := ProductCandidates(rows, stamp');
    DistinctByFromSpec(cands, ProductKey, {});
    ProductCandidateKeys(rows, stamp');
    ExceptAllKeys(DistinctBy(cands, ProductKey), ProductKey, KeySet(after, ProductKey));
  }

  // ---------------------------------------------------------------- the import

  /** Where, if anywhere, a repository call throws during the import. */
  datatype StoreFault = NoFault | CategoryStepFault | ProductStepFault

  /**
   * ImportCsvAsync. `file` is what File.ReadAllLines returns, None when it
   * throws; `fault` says which repository step throws, if any. The new
   * categories are appended before the new products; any exception is
   * caught and logged, never re-raised, and there is no rollback, so a
   * failure in the product step leaves the categories appended. The result
   * is whether the success message is logged.
   */
  method ImportCsv(store: Store, file: Option<seq<string>>, fault: StoreFault,
                   categoryStamp: nat -> Stamp, productStamp: nat -> Stamp)
    returns (completed: bool)
    requires store.Valid()
    modifies store
    ensures store.Valid()
    ensures completed <==> file.Some? && fault == NoFault
    ensures file.None? || fault == CategoryStepFault ==> store.categories == old(store.categories)
    ensures file.Some? && fault != CategoryStepFault ==>
      store.categories == old(store.categories) + NewCategories(ValidRecords(Body(file.value)), old(store.categories), categoryStamp)
    ensures store.products == if completed
      then old(store.products) + NewProducts(ValidRecords(Body(file.value)), old(store.products), productStamp)
      else old(store.products)
  {
    completed := false;
    if file.None? {
      return;
    }
    var skippedRecords, hasErrors;
    var validData;
    validData, skippedRecords, hasErrors := ReadAndValidateCsv(file.value, false);
    if fault == CategoryStepFault {
      return;
    }
    var newCategories := NewCategories(validData, store.categories, categoryStamp);
    CategoriesImportIdempotent(validData, store.categories, categoryStamp, categoryStamp);
    store.AddCategories(newCategories);
    if fault == ProductStepFault {
      return;
    }
    var newProducts := NewProducts(validData, store.products, productStamp);
    ProductsImportIdempotent(validData, store.products, productStamp, productStamp);
    store.AddProducts(newProducts);
    completed := true;
  }
}
