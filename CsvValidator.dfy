/**
 * CsvValidator: whether an import file is admissible, whether one data line
 * is a well-formed record, and the batch-wide uniqueness gate on product
 * codes.
 */
module CsvValidator {
  import opened Wrappers
  import opened Text
  import opened Collections
  import opened Entities

  const ExpectedColumns := 4

  const CsvDuplicatesKey := "Duplicate product codes found in CSV"
  const DatabaseDuplicatesKey := "Duplicate product codes found in Database"

  // ---------------------------------------------------------------- files

  /**
   * ValidateFile: the path must be present and not blank, name an existing
   * file, and carry the extension ".csv" in any case. Whether a file exists
   * is the caller's `fileExists`.
   */
  function ValidateFile(filePath: Option<string>, fileExists: string -> bool): bool
  {
    if IsNullOrWhiteSpace(filePath) then false
    else if !fileExists(filePath.value) then false
    else if ToLower(Extension(filePath.value)) != ".csv" then false
    else true
  }

  /** A file is admissible exactly when its path is non-blank, the file exists and the path ends in ".csv", ignoring case. */
  lemma ValidateFileSpec(filePath: Option<string>, fileExists: string -> bool)
    ensures ValidateFile(filePath, fileExists)
        <==> filePath.Some? && !IsBlank(filePath.value) && fileExists(filePath.value) && HasCsvSuffix(filePath.value)
  {
    if filePath.Some? {
      CsvExtension(filePath.value);
    }
  }

  // ---------------------------------------------------------------- lines

  /**
   * ValidateLine: split on ',', demand exactly four fields, trim them,
   * upper-case the two codes and reject any empty field. The Boolean is the
   * method's return value and the option its `out` record.
   */
  function ValidateLine(line: Option<string>): (r: (bool, Option<CsvRecord>))
    ensures r.0 <==> r.1.Some?
  {
    if IsNullOrWhiteSpace(line) then (false, None)
    else
      var data := Split(line.value, ',');
      if |data| != ExpectedColumns then (false, None)
      else
        var productName := Trim(data[0]);
        var productCode := ToUpper(Trim(data[1]));
        var categoryName := Trim(data[2]);
        var categoryCode := ToUpper(Trim(data[3]));
        if IsBlank(productName) || IsBlank(productCode) || IsBlank(categoryName) || IsBlank(categoryCode) then
          (false, None)
        else
          (true, Some(CsvRecord(productName, productCode, categoryName, categoryCode)))
  }

  /** The line of the file that holds a record: its four fields joined by ','. */
  function Format(rec: CsvRecord): string
  {
    Join([rec.productName, rec.productCode, rec.categoryName, rec.categoryCode], ",")
  }

  /** The line spelled out: the four fields with a ',' between each two. */
  lemma FormatFields(rec: CsvRecord)
    ensures Format(rec) == rec.productName + "," + rec.productCode + "," + rec.categoryName + "," + rec.categoryCode
  {
    var parts := [rec.productName, rec.productCode, rec.categoryName, rec.categoryCode];
    assert parts[1..][1..][1..] == [rec.categoryCode];
    assert parts[1..][1..] == [rec.categoryName, rec.categoryCode];
    assert Join(parts[1..][1..], ",") == rec.categoryName + "," + rec.categoryCode;
    assert Join(parts[1..], ",") == rec.productCode + "," + (rec.categoryName + "," + rec.categoryCode);
    assert Join(parts, ",") == rec.productName + "," + (rec.productCode + "," + (rec.categoryName + "," + rec.categoryCode));
  }

  /** Four fields that make a valid line: none contains ',' and none is blank. */
  predicate WellFormed(raw: CsvRecord)
  {
    && ',' !in raw.productName && ',' !in raw.productCode
    && ',' !in raw.categoryName && ',' !in raw.categoryCode
    && !IsBlank(raw.productName) && !IsBlank(raw.productCode)
    && !IsBlank(raw.categoryName) && !IsBlank(raw.categoryCode)
  }

  /** The record a line's raw fields become: trimmed, with the two codes upper-cased. */
  function Normalize(raw: CsvRecord): CsvRecord
  {
    CsvRecord(Trim(raw.productName), ToUpper(Trim(raw.productCode)),
              Trim(raw.categoryName), ToUpper(Trim(raw.categoryCode)))
  }

  /** A record as ValidateLine produces it: fields trimmed, non-empty, free of ',', codes upper-case. */
  predicate Canonical(rec: CsvRecord)
  {
    && IsTrimmed(rec.productName) && IsTrimmed(rec.productCode)
    && IsTrimmed(rec.categoryName) && IsTrimmed(rec.categoryCode)
    && rec.productName != [] && rec.productCode != [] && rec.categoryName != [] && rec.categoryCode != []
    && ',' !in rec.productName && ',' !in rec.productCode
    && ',' !in rec.categoryName && ',' !in rec.categoryCode
    && IsUpper(rec.productCode) && IsUpper(rec.categoryCode)
  }

  /** A trimmed, upper-cased field is blank exactly when the raw field is. */
  lemma NormalizedBlank(s: string)
    ensures IsBlank(Trim(s)) <==> IsBlank(s)
    ensures IsBlank(ToUpper(Trim(s))) <==> IsBlank(s)
  {
    TrimSpec(s);
    ToUpperSpec(Trim(s));
  }

  /** Cleaning a field without ',' gives a trimmed field without ','; upper-casing adds an upper-case one. */
  lemma NormalizedField(s: string)
    requires ',' !in s && !IsBlank(s)
    ensures IsTrimmed(Trim(s)) && Trim(s) != [] && ',' !in Trim(s)
    ensures IsTrimmed(ToUpper(Trim(s))) && ToUpper(Trim(s)) != [] && ',' !in ToUpper(Trim(s))
    ensures IsUpper(ToUpper(Trim(s)))
  {
    TrimSpec(s);
    TrimKeepsOthers(s, ',');
    OccurrencesZero(s, ',');
    OccurrencesZero(Trim(s), ',');
    ToUpperSpec(Trim(s));
  }

  lemma NormalizeCanonical(raw: CsvRecord)
    requires WellFormed(raw)
    ensures Canonical(Normalize(raw))
  {
    NormalizedField(raw.productName);
    NormalizedField(raw.productCode);
    NormalizedField(raw.categoryName);
    NormalizedField(raw.categoryCode);
  }

  lemma CanonicalFixed(rec: CsvRecord)
    requires Canonical(rec)
    ensures WellFormed(rec) && Normalize(rec) == rec
  {
    ToUpperSpec(rec.productCode);
    ToUpperSpec(rec.categoryCode);
  }

  /** Normalizing a well-formed record yields a canonical one; a canonical record is its own normal form. */
  lemma NormalizeSpec(raw: CsvRecord)
    ensures WellFormed(raw) ==> Canonical(Normalize(raw))
    ensures Canonical(raw) ==> WellFormed(raw) && Normalize(raw) == raw
  {
    if WellFormed(raw) {
      NormalizeCanonical(raw);
    }
    if Canonical(raw) {
      CanonicalFixed(raw);
    }
  }

  /** The line made of a record's four fields splits back into them and is not blank. */
  lemma FormatSplits(raw: CsvRecord)
    requires ',' !in raw.productName && ',' !in raw.productCode
    requires ',' !in raw.categoryName && ',' !in raw.categoryCode
    ensures Split(Format(raw), ',') == [raw.productName, raw.productCode, raw.categoryName, raw.categoryCode]
    ensures !IsBlank(Format(raw))
  {
    var parts := [raw.productName, raw.productCode, raw.categoryName, raw.categoryCode];
    SplitJoin(parts, ',');
    assert Format(raw) == raw.productName + "," + Join(parts[1..], ",");
    assert Format(raw)[|raw.productName|] == ',';
  }

  /**
   * Completeness: the line made of any well-formed fields is accepted, and
   * the record is those fields trimmed with both codes upper-cased.
   */
  lemma ValidateLineAccepts(raw: CsvRecord)
    requires WellFormed(raw)
    ensures ValidateLine(Some(Format(raw))) == (true, Some(Normalize(raw)))
  {
    FormatSplits(raw);
    NormalizedBlank(raw.productName);
    NormalizedBlank(raw.productCode);
    NormalizedBlank(raw.categoryName);
    NormalizedBlank(raw.categoryCode);
  }

  /** A canonical record survives being written as a line and validated again. */
  lemma ValidateLineRoundTrip(rec: CsvRecord)
    requires Canonical(rec)
    ensures ValidateLine(Some(Format(rec))) == (true, Some(rec))
  {
    NormalizeSpec(rec);
    ValidateLineAccepts(rec);
  }

  /**
   * Soundness: an accepted line is the formatted form of well-formed fields,
   * and the record is their normal form, which is canonical.
   */
  lemma ValidateLineSound(line: Option<string>)
    requires ValidateLine(line).0
    ensures line.Some?
    ensures exists raw :: WellFormed(raw) && Format(raw) == line.value && ValidateLine(line).1 == Some(Normalize(raw))
    ensures Canonical(ValidateLine(line).1.value)
  {
    var data := Split(line.value, ',');
    assert |data| == 4;
    var raw := CsvRecord(data[0], data[1], data[2], data[3]);
    assert data == [raw.productName, raw.productCode, raw.categoryName, raw.categoryCode];
    JoinSplit(line.value, ',');
    assert Format(raw) == line.value;
    NormalizedBlank(data[0]);
    NormalizedBlank(data[1]);
    NormalizedBlank(data[2]);
    NormalizedBlank(data[3]);
    assert WellFormed(raw);
    NormalizeSpec(raw);
  }

  /**
   * The rejections: a missing or blank line, a line without exactly three
   * separators (so not four fields), and a line with a blank field give
   * false and no record.
   */
  lemma ValidateLineRejects(line: Option<string>)
    requires || IsNullOrWhiteSpace(line)
             || Occurrences(line.value, ',') != 3
             || exists i :: 0 <= i < |Split(line.value, ',')| && IsBlank(Split(line.value, ',')[i])
    ensures ValidateLine(line) == (false, None)
  {
    if !IsNullOrWhiteSpace(line) && Occurrences(line.value, ',') == 3 {
      var data := Split(line.value, ',');
      NormalizedBlank(data[0]);
      NormalizedBlank(data[1]);
      NormalizedBlank(data[2]);
      NormalizedBlank(data[3]);
    }
  }

  // ---------------------------------------------------------------- uniqueness gate

  /** The dictionary ValidateUniqueProductCodes writes its findings into. */
  class ErrorSummary {
    var entries: map<string, string>

    constructor ()
      ensures entries == map[]
    {
      entries := map[];
    }

    /** The indexer's setter: adds the key or overwrites its value. */
    method Set(key: string, value: string)
      modifies this
      ensures entries == old(entries)[key := value]
    {
      entries := entries[key := value];
    }
  }

  /** records.Select(r => r.ProductCode) */
  function ProductCodes(records: seq<CsvRecord>): (r: seq<string>)
    ensures |r| == |records| && forall i :: 0 <= i < |records| ==> r[i] == records[i].productCode
  {
    seq(|records|, i requires 0 <= i < |records| => records[i].productCode)
  }

  /** products.Select(p => p.Code) */
  function StoredCodes(products: seq<Product>): (r: seq<string>)
    ensures |r| == |products| && forall i :: 0 <= i < |products| ==> r[i] == products[i].code
  {
    seq(|products|, i requires 0 <= i < |products| => products[i].code)
  }

  /**
   * GroupBy(code).Where(g => g.Count() > 1).Select(g => g.Key): the codes
   * that occur more than once, each once, in order of first occurrence.
   */
  function DuplicateCodes(codes: seq<string>): (r: seq<string>)
    ensures forall k :: k in r <==> Count(codes, k) > 1
    ensures NoDuplicates(r)
    ensures InFirstOccurrenceOrder(r, codes)
  {
    var repeated := (k: string) => Count(codes, k) > 1;
    DistinctSpec(codes);
    DistinctFromOrder(codes, {});
    FilterOrder(Distinct(codes), codes, repeated);
    UniqueIdentityNoDuplicates(Distinct(codes));
    FilterNoDuplicates(Distinct(codes), repeated);
    forall k ensures Count(codes, k) > 1 ==> k in codes {
      CountPositive(codes, k);
    }
    Filter(Distinct(codes), repeated)
  }

  /**
   * codes.Intersect(existing): the codes that are also in `existing`, each
   * once, in the order of `codes`.
   */
  function Intersect(codes: seq<string>, existing: seq<string>): (r: seq<string>)
    ensures forall k :: k in r <==> k in codes && k in existing
    ensures NoDuplicates(r)
    ensures InFirstOccurrenceOrder(r, codes)
  {
    var stored := (k: string) => k in existing;
    DistinctSpec(codes);
    DistinctFromOrder(codes, {});
    FilterOrder(Distinct(codes), codes, stored);
    UniqueIdentityNoDuplicates(Distinct(codes));
    FilterNoDuplicates(Distinct(codes), stored);
    Filter(Distinct(codes), stored)
  }

  /** The batch passes the gate: no product code repeats and none is already stored. */
  predicate BatchIsUnique(codes: seq<string>, existing: seq<string>)
  {
    NoDuplicates(codes) && forall i :: 0 <= i < |codes| ==> codes[i] !in existing
  }

  /** Neither check finds anything exactly when the batch passes the gate. */
  lemma GateSpec(codes: seq<string>, existing: seq<string>)
    ensures DuplicateCodes(codes) == [] && Intersect(codes, existing) == [] <==> BatchIsUnique(codes, existing)
  {
    var d, x := DuplicateCodes(codes), Intersect(codes, existing);
    NoDuplicatesCount(codes);
    if !NoDuplicates(codes) {
      var k :| k in codes && Count(codes, k) > 1;
      assert k in d;
    }
    if exists i :: 0 <= i < |codes| && codes[i] in existing {
      var i :| 0 <= i < |codes| && codes[i] in existing;
      assert codes[i] in x;
    }
    if BatchIsUnique(codes, existing) {
      assert d == [] by {
        if d != [] {
          CountPositive(codes, d[0]);
        }
      }
      assert x == [] by {
        var dc := Distinct(codes);
        DistinctSpec(codes);
        assert forall i :: 0 <= i < |dc| ==> dc[i] in codes;
      }
    }
  }

  /** The dictionary after one check: unchanged when it found nothing, else `key` maps to the findings joined by ", ". */
  function Noted(entries: map<string, string>, key: string, found: seq<string>): map<string, string>
  {
    if found == [] then entries else entries[key := Join(found, ", ")]
  }

  /**
   * ValidateUniqueProductCodes: both checks always run; the result is true
   * exactly when the batch passes the gate; each failing check writes its own
   * key and nothing else is touched.
   */
  method ValidateUniqueProductCodes(records: seq<CsvRecord>, existing: seq<Product>, errorSummary: ErrorSummary)
    returns (isUnique: bool)
    modifies errorSummary
    ensures isUnique <==> BatchIsUnique(ProductCodes(records), StoredCodes(existing))
    ensures errorSummary.entries
         == Noted(Noted(old(errorSummary.entries), CsvDuplicatesKey, DuplicateCodes(ProductCodes(records))),
                  DatabaseDuplicatesKey, Intersect(ProductCodes(records), StoredCodes(existing)))
    ensures isUnique ==> errorSummary.entries == old(errorSummary.entries)
  {
    isUnique := true;
    var productCodesFromCsv := ProductCodes(records);
    var duplicateInCsv := DuplicateCodes(productCodesFromCsv);
    if |duplicateInCsv| != 0 {
      errorSummary.Set(CsvDuplicatesKey, Join(duplicateInCsv, ", "));
      isUnique := false;
    }
    var existingProductCodes := StoredCodes(existing);
    var duplicateInDb := Intersect(productCodesFromCsv, existingProductCodes);
    if |duplicateInDb| != 0 {
      errorSummary.Set(DatabaseDuplicatesKey, Join(duplicateInDb, ", "));
      isUnique := false;
    }
    GateSpec(productCodesFromCsv, existingProductCodes);
  }

  // ---------------------------------------------------------------- the unit tests' cases

  lemma ValidateFileExamples(fileExists: string -> bool)
    requires fileExists("test_valid.csv") && fileExists("invalid.txt") && !fileExists("non_existing.csv")
    ensures ValidateFile(Some("test_valid.csv"), fileExists)
    ensures !ValidateFile(Some("invalid.txt"), fileExists)
    ensures !ValidateFile(Some("non_existing.csv"), fileExists)
    ensures !ValidateFile(None, fileExists) && !ValidateFile(Some("  "), fileExists)
  {
    ValidateFileSpec(Some("test_valid.csv"), fileExists);
    ValidateFileSpec(Some("invalid.txt"), fileExists);
    assert !IsWhiteSpace("test_valid.csv"[0]);
    assert ToLower("test_valid.csv"[10..]) == ".csv";
    assert "invalid.txt"[7..] == ".txt";
  }

  lemma CanonicalExample()
    ensures Canonical(CsvRecord("Product01", "P01", "Category01", "C01"))
  {
  }


  lemma FormatExample(rec: CsvRecord)
    requires rec == CsvRecord("Product01", "P01", "Category01", "C01")
    ensures Format(rec) == "Product01,P01,Category01,C01"
  {
    FormatFields(rec);
  }

  lemma ValidLineExample()
    ensures ValidateLine(Some("Product01,P01,Category01,C01"))
         == (true, Some(CsvRecord("Product01", "P01", "Category01", "C01")))
  {
    var rec := CsvRecord("Product01", "P01", "Category01", "C01");
    CanonicalExample();
    FormatExample(rec);
    ValidateLineRoundTrip(rec);
  }

  lemma JoinExample()
    ensures Join(["Product01", "P01", "Category01"], ",") == "Product01,P01,Category01"
  {
    var parts := ["Product01", "P01", "Category01"];
    assert parts[1..][1..] == ["Category01"];
    assert Join(parts[1..], ",") == "P01" + "," + "Category01";
  }

  lemma ShortLineExample()
    ensures ValidateLine(Some("Product01,P01,Category01")) == (false, None)
    ensures ValidateLine(Some("")) == (false, None) && ValidateLine(None) == (false, None)
  {
    var parts := ["Product01", "P01", "Category01"];
    JoinExample();
    SplitJoin(parts, ',');
  }

  /**
   * The gate's three cases: P01 and P02 against an empty store pass; P01
   * twice is a duplicate within the file; P01 against a stored P01 is a
   * duplicate of the store.
   */
  lemma DuplicateCodesExample()
    ensures BatchIsUnique(["P01", "P02"], [])
    ensures DuplicateCodes(["P01", "P01"]) != [] && "P01" in DuplicateCodes(["P01", "P01"])
    ensures Intersect(["P01"], ["P01"]) != [] && "P01" in Intersect(["P01"], ["P01"])
  {
    assert Count(["P01", "P01"], "P01") == 2;
  }
}
