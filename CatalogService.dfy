/**
 * CatalogService.GetProductsAsync: filter the products by a code fragment,
 * count them, work out the number of pages, and return one page of them as
 * DTOs.
 */
module CatalogService {
  import opened Wrappers
  import opened Text
  import opened Entities

  /** The query's result: one page of products, the page count and the item count. */
  datatype ProductPage = ProductPage(products: seq<ProductDto>, totalPages: int, totalItems: int)

  /** The projection to ProductDto. */
  function ToDto(p: Product): ProductDto
  {
    ProductDto(p.id, p.name, p.code, p.categoryCode)
  }

  function ToDtos(ps: seq<Product>): (r: seq<ProductDto>)
    ensures |r| == |ps| && forall i :: 0 <= i < |ps| ==> r[i] == ToDto(ps[i])
  {
    seq(|ps|, i requires 0 <= i < |ps| => ToDto(ps[i]))
  }

  /** Where(p => p.Code.Contains(fragment)) */
  function WithCodeContaining(ps: seq<Product>, fragment: string): seq<Product>
  {
    if ps == [] then []
    else (if Contains(ps[0].code, fragment) then [ps[0]] else []) + WithCodeContaining(ps[1..], fragment)
  }

  /** The code filter, skipped when no fragment (or an empty one) is given. */
  function CodeFilter(ps: seq<Product>, productCode: Option<string>): seq<Product>
  {
    if IsNullOrEmpty(productCode) then ps else WithCodeContaining(ps, productCode.value)
  }

  /**
   * The filter keeps exactly the products whose code has the fragment as a
   * contiguous block, and keeps their order: it distributes over
   * concatenation.
   */
  lemma {:induction false} WithCodeContainingSpec(ps: seq<Product>, fragment: string)
    ensures forall p :: p in WithCodeContaining(ps, fragment) <==>
      p in ps && exists a, b :: p.code == a + fragment + b
  {
    if ps != [] {
      WithCodeContainingSpec(ps[1..], fragment);
      ContainsSpec(ps[0].code, fragment);
      assert ps == [ps[0]] + ps[1..];
    }
  }

  lemma {:induction false} WithCodeContainingAppend(a: seq<Product>, b: seq<Product>, fragment: string)
    ensures WithCodeContaining(a + b, fragment) == WithCodeContaining(a, fragment) + WithCodeContaining(b, fragment)
  {
    if a == [] {
      assert a + b == b;
    } else {
      assert (a + b)[0] == a[0] && (a + b)[1..] == a[1..] + b;
      WithCodeContainingAppend(a[1..], b, fragment);
    }
  }

  /** An empty fragment is contained in every code, so it filters nothing, like a missing one. */
  lemma EmptyFragmentKeepsAll(ps: seq<Product>)
    ensures WithCodeContaining(ps, "") == ps
    ensures forall productCode :: IsNullOrEmpty(productCode) ==> CodeFilter(ps, productCode) == ps
  {
    if ps != [] {
      EmptyFragmentKeepsAll(ps[1..]);
      assert ps == [ps[0]] + ps[1..];
    }
  }

  /**
   * (int)Math.Ceiling(n / (double)d) for a positive page size: the least
   * number of pages of `d` items that hold `n` items.
   */
  function CeilDiv(n: nat, d: nat): (q: nat)
    requires d >= 1
    ensures (q - 1) * d < n <= q * d
  {
    var q := (n + d - 1) / d;
    var m := (n + d - 1) % d;
    assert n + d - 1 == q * d + m;
    assert (q - 1) * d == q * d - d;
    q
  }

  function Min(a: int, b: int): int
  {
    if a <= b then a else b
  }

  function Max(a: int, b: int): int
  {
    if a >= b then a else b
  }

  /** Skip((page - 1) * pageSize): the index of the page's first item. */
  function PageStart(page: int, pageSize: int): (start: nat)
    requires page >= 1 && pageSize >= 1
    ensures start == (page - 1) * pageSize
  {
    MulNonNegative(page - 1, pageSize);
    (page - 1) * pageSize
  }

  lemma MulNonNegative(a: int, b: int)
    requires a >= 0 && b >= 0
    ensures a * b >= 0
  {
  }

  lemma MulMonotone(a: int, b: int, c: int)
    requires a >= b && c >= 0
    ensures a * c >= b * c
  {
    MulNonNegative(a - b, c);
    assert (a - b) * c == a * c - b * c;
  }

  /** Skip(start).Take(size) on a list of n items: the indices start up to start + size, cut at n. */
  function PageBounds(n: nat, start: nat, size: nat): (bounds: (nat, nat))
    ensures bounds.0 <= bounds.1 <= n
    ensures bounds.1 - bounds.0 == Min(size, Max(0, n - start))
    ensures bounds.1 > bounds.0 ==> bounds.0 == start
  {
    var skip := Min(start, n);
    (skip, Min(skip + size, n))
  }

  /**
   * GetProductsAsync(page, pageSize, productCode), with the controller's
   * guard page >= 1 && pageSize >= 1 as the precondition.
   */
  function GetProducts(all: seq<Product>, page: int, pageSize: int, productCode: Option<string>): (r: ProductPage)
    requires page >= 1 && pageSize >= 1
    ensures r.totalItems == |CodeFilter(all, productCode)|
    ensures r.totalPages >= 0
    ensures (r.totalPages - 1) * pageSize < r.totalItems <= r.totalPages * pageSize
    ensures |r.products| == Min(pageSize, Max(0, r.totalItems - PageStart(page, pageSize)))
    ensures forall k :: 0 <= k < |r.products| ==>
      var p := CodeFilter(all, productCode)[PageStart(page, pageSize) + k];
      r.products[k].id == p.id && r.products[k].name == p.name
        && r.products[k].code == p.code && r.products[k].categoryCode == p.categoryCode
  {
    var query := CodeFilter(all, productCode);
    var totalItems := |query|;
    var totalPages := CeilDiv(totalItems, pageSize);
    ProductPage(PageOf(query, PageStart(page, pageSize), pageSize), totalPages, totalItems)
  }

  /** query.Skip(start).Take(size).Select(ToDto) */
  function PageOf(query: seq<Product>, start: nat, size: nat): seq<ProductDto>
  {
    var bounds := PageBounds(|query|, start, size);
    ToDtos(query[bounds.0..bounds.1])
  }

  /** The pages 1 to n of `query`, one after the other. */
  function FirstPages(query: seq<Product>, n: nat, pageSize: int): seq<ProductDto>
    requires pageSize >= 1
  {
    if n == 0 then [] else FirstPages(query, n - 1, pageSize) + PageOf(query, PageStart(n, pageSize), pageSize)
  }

  lemma PageStartStep(page: int, pageSize: int)
    requires page >= 1 && pageSize >= 1
    ensures PageStart(page + 1, pageSize) == PageStart(page, pageSize) + pageSize
  {
  }

  lemma ToDtosAppend(a: seq<Product>, b: seq<Product>)
    ensures ToDtos(a + b) == ToDtos(a) + ToDtos(b)
  {
  }

  /** A page continues the items before its start: together they are the items before its end. */
  lemma PageExtends(query: seq<Product>, start: nat, size: nat)
    ensures ToDtos(query[..Min(start, |query|)]) + PageOf(query, start, size) == ToDtos(query[..Min(start + size, |query|)])
  {
    var lo := Min(start, |query|);
    var hi := Min(start + size, |query|);
    assert PageBounds(|query|, start, size) == (lo, hi);
    assert query[..hi] == query[..lo] + query[lo..hi];
    ToDtosAppend(query[..lo], query[lo..hi]);
  }

  /** The first n pages are the items before the start of page n + 1, as DTOs. */
  lemma {:induction false} FirstPagesSpec(query: seq<Product>, n: nat, pageSize: int)
    requires pageSize >= 1
    ensures FirstPages(query, n, pageSize) == ToDtos(query[..Min(PageStart(n + 1, pageSize), |query|)])
  {
    if n == 0 {
      assert query[..0] == [];
    } else {
      FirstPagesSpec(query, n - 1, pageSize);
      PageStartStep(n, pageSize);
      PageExtends(query, PageStart(n, pageSize), pageSize);
    }
  }

  /** Every page after the last needed one starts at or after the end of the items. */
  lemma PastLastPage(n: nat, pageSize: int, totalPages: int, page: int)
    requires pageSize >= 1 && totalPages >= 0 && n <= totalPages * pageSize && page > totalPages
    ensures PageStart(page, pageSize) >= n
  {
    MulMonotone(page - 1, totalPages, pageSize);
  }

  /** Pages 1 to totalPages, in order, are every filtered product once. */
  lemma PagesCoverAll(all: seq<Product>, pageSize: int, productCode: Option<string>)
    requires pageSize >= 1
    ensures var r := GetProducts(all, 1, pageSize, productCode);
      FirstPages(CodeFilter(all, productCode), r.totalPages, pageSize) == ToDtos(CodeFilter(all, productCode))
  {
    var q := CodeFilter(all, productCode);
    var t := GetProducts(all, 1, pageSize, productCode).totalPages;
    FirstPagesSpec(q, t, pageSize);
    PastLastPage(|q|, pageSize, t, t + 1);
    assert q[..|q|] == q;
  }

  /** Every page after the last one is empty. */
  lemma PagesBeyondEmpty(all: seq<Product>, pageSize: int, productCode: Option<string>, page: int)
    requires pageSize >= 1
    ensures page > GetProducts(all, 1, pageSize, productCode).totalPages ==>
      GetProducts(all, page, pageSize, productCode).products == []
  {
    var r := GetProducts(all, 1, pageSize, productCode);
    if page > r.totalPages {
      PastLastPage(r.totalItems, pageSize, r.totalPages, page);
    }
  }

  /**
   * Paging covers the filtered list exactly: pages 1 to totalPages, in
   * order, are every filtered product once, and every later page is empty.
   */
  lemma PagesPartition(all: seq<Product>, pageSize: int, productCode: Option<string>, page: int)
    requires pageSize >= 1
    ensures var r := GetProducts(all, 1, pageSize, productCode);
      FirstPages(CodeFilter(all, productCode), r.totalPages, pageSize) == ToDtos(CodeFilter(all, productCode))
    ensures page > GetProducts(all, 1, pageSize, productCode).totalPages ==>
      GetProducts(all, page, pageSize, productCode).products == []
  {
    PagesCoverAll(all, pageSize, productCode);
    PagesBeyondEmpty(all, pageSize, productCode, page);
  }

  // ---------------------------------------------------------------- small catalogues

  /** Three products, pages of two: the first page holds the first two, and there are two pages. */
  lemma FirstPageExample(a: Product, b: Product, c: Product)
    ensures var r := GetProducts([a, b, c], 1, 2, None);
      r.totalItems == 3 && r.totalPages == 2 && r.products == [ToDto(a), ToDto(b)]
  {
    var r := GetProducts([a, b, c], 1, 2, None);
    assert r.totalPages == 2;
    assert r.products == PageOf([a, b, c], 0, 2);
    assert [a, b, c][0..2] == [a, b];
  }

  /** Filtering two products with codes P01 and P02 by "P02", pages of two: one page holding the one product. */
  lemma CodeFilterExample(a: Product, b: Product)
    requires a.code == "P01" && b.code == "P02"
    ensures var r := GetProducts([a, b], 1, 2, Some("P02"));
      r.totalItems == 1 && r.totalPages == 1 && r.products == [ToDto(b)] && r.products[0].code == "P02"
  {
    var q := [a, b];
    assert q[1..] == [b] && q[1..][1..] == [];
    assert !Contains("P01", "P02") && Contains("P02", "P02");
    assert !IsNullOrEmpty(Some("P02"));
    assert WithCodeContaining([b], "P02") == [b];
    assert CodeFilter(q, Some("P02")) == [b];
    assert [b][0..1] == [b];
  }
}
