/**
 * The two tables the import writes, each with the rows staged in it:
 * AddCategoriesAsync / AddProductsAsync append a range. The model reads
 * every staged row back, as if each AddRangeAsync were saved; in the
 * program GetAll...Async query the database and do not see unsaved rows.
 */
module CatalogStore {
  import opened Entities
  import opened Collections

  class Store {
    var categories: seq<Category>
    var products: seq<Product>

    /** The unique indexes on Category.Code and Product.Code. */
    ghost predicate Valid()
      reads this
    {
      UniqueKeys(categories, CategoryKey) && UniqueKeys(products, ProductKey)
    }

    constructor (categories: seq<Category>, products: seq<Product>)
      ensures this.categories == categories && this.products == products
    {
      this.categories := categories;
      this.products := products;
    }

    /** AddCategoriesAsync: AddRangeAsync on the category set. */
    method AddCategories(added: seq<Category>)
      modifies this
      ensures categories == old(categories) + added
      ensures products == old(products)
    {
      categories := categories + added;
    }

    /** AddProductsAsync: AddRangeAsync on the product set. */
    method AddProducts(added: seq<Product>)
      modifies this
      ensures products == old(products) + added
      ensures categories == old(categories)
    {
      products := products + added;
    }
  }
}
