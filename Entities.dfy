/**
 * The catalog's records: the two stored entities, the parsed CSV row and the
 * product view returned by the query. The store-generated identity and the
 * creation time are opaque values.
 */
module Entities {

  /** A Guid, as an opaque number. */
  datatype Guid = Guid(bits: nat)

  /** A DateTime, in ticks. */
  type Instant = int

  /** What Guid.NewGuid() and DateTime.UtcNow supply when an entity is created. */
  datatype Stamp = Stamp(id: Guid, created: Instant)

  /** A category; its Code carries a unique index. */
  datatype Category = Category(id: Guid, name: string, code: string, creationDate: Instant)

  /** A product; its Code carries a unique index and CategoryCode refers to a Category's Code. */
  datatype Product = Product(id: Guid, name: string, code: string, categoryCode: string, creationDate: Instant)

  /** One data line of the import file, in column order. */
  datatype CsvRecord = CsvRecord(productName: string, productCode: string, categoryName: string, categoryCode: string)

  /** The product view the paginated query returns. */
  datatype ProductDto = ProductDto(id: Guid, name: string, code: string, categoryCode: string)

  /** The key of the unique index on categories. */
  function CategoryKey(c: Category): string
  {
    c.code
  }

  /** The key of the unique index on products. */
  function ProductKey(p: Product): string
  {
    p.code
  }
}
