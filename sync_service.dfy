/** The sync controller: one product page per call, resuming from what the
    store already holds, and the pass that merges variation lists into the
    stored variable products. The remote API is a parameter that maps a
    request to its outcome. */
module SyncService {
  import opened PhpValues
  import Table
  import opened CatalogStore

  /** Products are fetched ten to a page. */
  const PerPage: int := 10

  /** The outcome of one remote call: its payload or the failure message. */
  datatype Fetch<T> = Fetched(value: T) | FetchFailed(message: string)

  /** A successful product page: the items and the totals the remote
      reports in its headers. */
  datatype ProductsPage = ProductsPage(products: seq<Value>, totalProducts: int, totalPages: int)

  /** The result of `sync_products_page`. */
  datatype PageResult =
    | PageFailed(message: string)
    | PageSynced(page: int, totalPages: int, totalProducts: int, existingCount: nat,
                 insertedCount: nat, productsFetched: nat, hasMore: bool)

  /** The result of `sync_variations`. */
  datatype VariationsResult =
    | NoVariableProducts
    | VariationsUpdated(processed: nat, errors: nat)

  /** The page to fetch. A request for page 1 resumes after the full pages
      the store already holds: `max(1, floor(existing / 10) + 1)`. */
  function ResumePage(requestedPage: int, existingCount: nat): (page: int)
    ensures requestedPage != 1 ==> page == requestedPage
    ensures requestedPage == 1 ==> page >= 1 && (page - 1) * PerPage <= existingCount < page * PerPage
  {
    if requestedPage == 1 then
      var calculated := existingCount / PerPage + 1;
      if calculated < 1 then 1 else calculated
    else requestedPage
  }

  /** Another page is worth fetching when this one was not the last and
      returned something. */
  predicate HasMore(page: int, totalPages: int, fetched: nat) {
    page < totalPages && fetched > 0
  }

  /** The further pages the admin screen requests after `page` when it keeps
      asking for `page + 1` while `has_more` holds; `fetched(q)` is the number
      of products page `q` returns. */
  function PagesFollowed(page: int, totalPages: int, fetched: int -> nat): nat
    decreases totalPages - page
  {
    if HasMore(page, totalPages, fetched(page)) then 1 + PagesFollowed(page + 1, totalPages, fetched) else 0
  }

  /** The page loop stops: following `has_more` from `page` requests at most
      the pages left before the reported total, and none once an empty page
      comes back. */
  lemma {:induction false} HasMoreBound(page: int, totalPages: int, fetched: int -> nat)
    ensures var n := PagesFollowed(page, totalPages, fetched);
            && (page < totalPages ==> n <= totalPages - page)
            && (page >= totalPages ==> n == 0)
            && (forall q :: page <= q < page + n ==> fetched(q) > 0)
            && (page + n < totalPages ==> fetched(page + n) == 0)
    decreases totalPages - page
  {
    var n := PagesFollowed(page, totalPages, fetched);
    if HasMore(page, totalPages, fetched(page)) {
      var next := page + 1;
      var m := PagesFollowed(next, totalPages, fetched);
      HasMoreBound(next, totalPages, fetched);
      assert n == 1 + m;
    }
  }

  /** A variable row once `sync_variations` has visited it: when the fetch
      and the update succeed, its payload's `variations` is the fetched list
      and nothing else about the row changes. */
  function SyncedRow(r: ProductRow, fetch: int -> Fetch<Value>, updateOk: int -> bool): ProductRow {
    if IsVariable(r.cols) && fetch(r.key).Fetched? && updateOk(r.key)
    then r.(cols := r.cols.(productData := r.cols.productData["variations" := fetch(r.key).value]))
    else r
  }

  /** The product table after `sync_variations`. */
  function SyncedVariations(rows: seq<ProductRow>, fetch: int -> Fetch<Value>, updateOk: int -> bool): seq<ProductRow> {
    seq(|rows|, i requires 0 <= i < |rows| => SyncedRow(rows[i], fetch, updateOk))
  }

  /** The number of rows whose variations were fetched and stored. */
  function SuccessCount(rows: seq<ProductRow>, fetch: int -> Fetch<Value>, updateOk: int -> bool): (n: nat)
    ensures n <= |rows|
  {
    if rows == [] then 0
    else (if fetch(rows[0].key).Fetched? && updateOk(rows[0].key) then 1 else 0)
         + SuccessCount(rows[1..], fetch, updateOk)
  }

  /** Two tables whose rows agree on a flag have as many rows with it. */
  lemma {:induction false} WhereCountAgrees(a: seq<ProductRow>, b: seq<ProductRow>, p: ProductCols -> bool)
    requires |a| == |b|
    requires forall i :: 0 <= i < |a| ==> p(a[i].cols) == p(b[i].cols)
    ensures |Table.Where(a, p)| == |Table.Where(b, p)|
  {
    if a != [] {
      assert forall i :: 0 <= i < |a| - 1 ==> a[1..][i] == a[i + 1] && b[1..][i] == b[i + 1];
      WhereCountAgrees(a[1..], b[1..], p);
    }
  }

  /** `sync_variations` keeps the table valid and changes no flag: the
      variable and completed counts, and so the completeness verdict, are
      what they were. It leaves `allVariationsObtained` alone, so it cannot
      bring a store with an incomplete variable product to completion. */
  lemma SyncedVariationsKeepsFlags(rows: seq<ProductRow>, nextId: nat, categories: seq<CategoryRow>,
                                   fetch: int -> Fetch<Value>, updateOk: int -> bool)
    requires Table.Valid(rows, nextId)
    ensures var after := SyncedVariations(rows, fetch, updateOk);
            && Table.Valid(after, nextId)
            && Table.KeysOf(after) == Table.KeysOf(rows)
            && |Table.Where(after, IsVariable)| == |Table.Where(rows, IsVariable)|
            && |Table.Where(after, HasAllVariations)| == |Table.Where(rows, HasAllVariations)|
            && (SyncComplete(after, categories) <==> SyncComplete(rows, categories))
  {
    var after := SyncedVariations(rows, fetch, updateOk);
    assert forall i :: 0 <= i < |rows| ==> after[i].id == rows[i].id && after[i].key == rows[i].key;
    WhereCountAgrees(after, rows, IsVariable);
    WhereCountAgrees(after, rows, HasAllVariations);
    assert forall i :: 0 <= i < |rows| ==> NeedsVariations(after[i].cols) == NeedsVariations(rows[i].cols);
    assert Table.KeysOf(after) == Table.KeysOf(rows) by {
      forall k | k in Table.KeysOf(rows) ensures k in Table.KeysOf(after) {
        var i :| 0 <= i < |rows| && rows[i].key == k;
        assert after[i].key == k;
      }
    }
  }

  /** The product table while `sync_variations` runs: the rows whose source
      ids are in `done` have been visited. */
  ghost function PartlySynced(rows: seq<ProductRow>, done: set<int>, fetch: int -> Fetch<Value>,
                              updateOk: int -> bool): seq<ProductRow> {
    seq(|rows|, i requires 0 <= i < |rows| =>
          if rows[i].key in done then SyncedRow(rows[i], fetch, updateOk) else rows[i])
  }

  /** Visiting one more variable product updates exactly its own row. */
  lemma SyncStep(rows: seq<ProductRow>, nextId: nat, done: set<int>, product: ProductRow,
                 fetch: int -> Fetch<Value>, updateOk: int -> bool, after: seq<ProductRow>)
    requires Table.Valid(rows, nextId)
    requires product in rows && IsVariable(product.cols) && product.key !in done
    requires var before := PartlySynced(rows, done, fetch, updateOk);
             after == if fetch(product.key).Fetched? && updateOk(product.key)
                      then Table.Update(before, product.key,
                                        WithProductData(product.cols.productData["variations" := fetch(product.key).value]))
                      else before
    ensures after == PartlySynced(rows, done + {product.key}, fetch, updateOk)
  {
    var before := PartlySynced(rows, done, fetch, updateOk);
    if fetch(product.key).Fetched? {
      var data := product.cols.productData["variations" := fetch(product.key).value];
    }
    var a :| 0 <= a < |rows| && rows[a] == product;
    forall i | 0 <= i < |rows| ensures after[i] == PartlySynced(rows, done + {product.key}, fetch, updateOk)[i] {
      if i != a {
        assert rows[i].key != product.key;
      }
    }
  }

  /** Visiting rows changes no id and no key, so the table stays valid. */
  lemma PartlySyncedValid(rows: seq<ProductRow>, nextId: nat, done: set<int>, fetch: int -> Fetch<Value>,
                          updateOk: int -> bool)
    requires Table.Valid(rows, nextId)
    ensures Table.Valid(PartlySynced(rows, done, fetch, updateOk), nextId)
  {
    var after := PartlySynced(rows, done, fetch, updateOk);
    assert forall i :: 0 <= i < |rows| ==> after[i].id == rows[i].id && after[i].key == rows[i].key;
  }

  /** Once every variable product has been visited, the table is the one
      `SyncedVariations` describes, and it is valid. */
  lemma SyncFinished(rows: seq<ProductRow>, nextId: nat, fetch: int -> Fetch<Value>, updateOk: int -> bool)
    requires Table.Valid(rows, nextId)
    ensures var done := Table.KeysOf(Table.Where(rows, IsVariable));
            && PartlySynced(rows, done, fetch, updateOk) == SyncedVariations(rows, fetch, updateOk)
            && Table.Valid(SyncedVariations(rows, fetch, updateOk), nextId)
  {
    VisitedAreVariable(rows, nextId);
    PartlySyncedValid(rows, nextId, Table.KeysOf(Table.Where(rows, IsVariable)), fetch, updateOk);
  }

  /** The variable products have distinct keys, so the next one has not been
      visited yet. */
  lemma KeyNotVisited(rows: seq<ProductRow>, nextId: nat, j: nat)
    requires Table.Valid(rows, nextId)
    requires j < |Table.Where(rows, IsVariable)|
    ensures var selected := Table.Where(rows, IsVariable);
            selected[j].key !in Table.KeysOf(selected[..j])
  {
    var selected := Table.Where(rows, IsVariable);
    VariableProductsSpec(rows, nextId);
    forall m | 0 <= m < j ensures selected[..j][m].key != selected[j].key {
      assert selected[..j][m] == selected[m];
    }
  }

  /** The source ids of the variable-product selection are exactly the ids of
      the variable rows. */
  lemma VisitedAreVariable(rows: seq<ProductRow>, nextId: nat)
    requires Table.Valid(rows, nextId)
    ensures var selected := Table.Where(rows, IsVariable);
            forall i :: 0 <= i < |rows| ==> (rows[i].key in Table.KeysOf(selected) <==> IsVariable(rows[i].cols))
  {
    var selected := Table.Where(rows, IsVariable);
    forall i | 0 <= i < |rows| ensures rows[i].key in Table.KeysOf(selected) <==> IsVariable(rows[i].cols) {
      Table.WhereMember(rows, IsVariable, rows[i]);
      if IsVariable(rows[i].cols) {
        var m :| 0 <= m < |selected| && selected[m] == rows[i];
      }
      if rows[i].key in Table.KeysOf(selected) {
        var m :| 0 <= m < |selected| && selected[m].key == rows[i].key;
        Table.WhereMember(rows, IsVariable, selected[m]);
        var a :| 0 <= a < |rows| && rows[a] == selected[m];
        assert a == i;
      }
    }
  }

  /** Fetches one page of products and upserts it. A request for page 1
      resumes from the store's product count. When the fetch fails nothing is
      written. */
  method SyncProductsPage(db: Database, requestedPage: int, getProducts: int -> Fetch<ProductsPage>,
                          writeOk: nat -> bool) returns (result: PageResult)
    requires db.Valid()
    modifies db
    ensures db.Valid()
    ensures db.categories == old(db.categories) && db.nextCategoryId == old(db.nextCategoryId)
    ensures var page := ResumePage(requestedPage, |old(db.products)|);
            match getProducts(page)
            case FetchFailed(message) =>
              && result == PageFailed(message)
              && db.products == old(db.products) && db.nextProductId == old(db.nextProductId)
            case Fetched(p) =>
              var writes := Table.Writes(p.products, writeOk, ProductWrite);
              && (db.products, db.nextProductId) == Table.UpsertAll(old(db.products), old(db.nextProductId), writes)
              && result == PageSynced(page, p.totalPages, p.totalProducts, |db.products|, |writes|,
                                      |p.products|, HasMore(page, p.totalPages, |p.products|))
  {
    var page;
    if requestedPage == 1 {
      var existingCount := db.GetProductsCount();
      page := if existingCount / PerPage + 1 < 1 then 1 else existingCount / PerPage + 1;
    } else {
      page := requestedPage;
    }
    var fetched := getProducts(page);
    if fetched.FetchFailed? {
      return PageFailed(fetched.message);
    }
    var products := fetched.value.products;
    var insertedCount := db.InsertProducts(products, writeOk);
    var newExistingCount := db.GetProductsCount();
    var hasMore := page < fetched.value.totalPages && |products| > 0;
    result := PageSynced(page, fetched.value.totalPages, fetched.value.totalProducts, newExistingCount,
                         insertedCount, |products|, hasMore);
  }

  /** One visit of the `sync_variations` loop: fetch the product's
      variations and, on success, store them in its payload. The result says
      whether the product counts as processed. */
  method VisitVariableProduct(db: Database, product: ProductRow, fetch: int -> Fetch<Value>,
                              updateOk: int -> bool) returns (updated: bool)
    requires db.Valid()
    modifies db
    ensures db.Valid()
    ensures updated == (fetch(product.key).Fetched? && updateOk(product.key))
    ensures db.products == if updated
                           then Table.Update(old(db.products), product.key,
                                             WithProductData(product.cols.productData["variations" := fetch(product.key).value]))
                           else old(db.products)
    ensures db.nextProductId == old(db.nextProductId)
    ensures db.categories == old(db.categories) && db.nextCategoryId == old(db.nextCategoryId)
  {
    var productId := product.key;
    var fetched := fetch(productId);
    if fetched.Fetched? {
      var productData := product.cols.productData["variations" := fetched.value];
      updated := db.UpdateProductVariations(productId, productData, updateOk(productId));
    } else {
      updated := false;
    }
  }

  /** Fetches the variation list of every variable product and stores it in
      that product's payload. A product whose fetch or update fails is left
      as it was and counted as an error. */
  method SyncVariations(db: Database, fetch: int -> Fetch<Value>, updateOk: int -> bool)
      returns (result: VariationsResult)
    requires db.Valid()
    modifies db
    ensures db.Valid()
    ensures db.products == SyncedVariations(old(db.products), fetch, updateOk)
    ensures db.nextProductId == old(db.nextProductId)
    ensures db.categories == old(db.categories) && db.nextCategoryId == old(db.nextCategoryId)
    ensures var variable := Table.Where(old(db.products), IsVariable);
            if variable == [] then result == NoVariableProducts
            else && result.VariationsUpdated?
                 && result.processed == SuccessCount(variable, fetch, updateOk)
                 && result.processed + result.errors == |variable|
  {
    ghost var rows0 := db.products;
    var variableProducts := db.GetVariableProducts();
    if variableProducts == [] {
      Table.WhereEmpty(rows0, IsVariable);
      assert db.products == SyncedVariations(rows0, fetch, updateOk);
      return NoVariableProducts;
    }
    var processedCount := 0;
    var errorCount := 0;
    ghost var done: set<int> := {};
    assert db.products == PartlySynced(rows0, done, fetch, updateOk);
    assert variableProducts[0..] == variableProducts;
    assert Table.KeysOf(variableProducts[..0]) == {};
    var j := 0;
    while j < |variableProducts|
      invariant 0 <= j <= |variableProducts|
      invariant db.nextProductId == old(db.nextProductId)
      invariant db.categories == old(db.categories) && db.nextCategoryId == old(db.nextCategoryId)
      invariant done == Table.KeysOf(variableProducts[..j])
      invariant db.products == PartlySynced(rows0, done, fetch, updateOk)
      invariant processedCount + SuccessCount(variableProducts[j..], fetch, updateOk)
                == SuccessCount(variableProducts, fetch, updateOk)
      invariant processedCount + errorCount == j
    {
      var product := variableProducts[j];
      var productId := product.key;
      Table.WhereMember(rows0, IsVariable, product);
      KeyNotVisited(rows0, old(db.nextProductId), j);
      Table.KeysOfPrefix(variableProducts, j);
      assert done + {productId} == Table.KeysOf(variableProducts[..j + 1]);
      assert processedCount + SuccessCount(variableProducts[j..], fetch, updateOk) == SuccessCount(variableProducts, fetch, updateOk);
      assert variableProducts[j..][1..] == variableProducts[j + 1..];
      PartlySyncedValid(rows0, old(db.nextProductId), done, fetch, updateOk);
      var updated := VisitVariableProduct(db, product, fetch, updateOk);
      SyncStep(rows0, old(db.nextProductId), done, product, fetch, updateOk, db.products);
      if updated {
        processedCount := processedCount + 1;
      } else {
        errorCount := errorCount + 1;
      }
      done := done + {productId};
      j := j + 1;
      assert done == Table.KeysOf(variableProducts[..j]);
      assert processedCount + SuccessCount(variableProducts[j..], fetch, updateOk) == SuccessCount(variableProducts, fetch, updateOk);
    }
    assert variableProducts[..j] == variableProducts;
    assert variableProducts[j..] == [];
    assert processedCount == SuccessCount(variableProducts, fetch, updateOk);
    SyncFinished(rows0, old(db.nextProductId), fetch, updateOk);
    result := VariationsUpdated(processedCount, errorCount);
  }

  /** Truncates the product table only; success is the truncation's. */
  method ClearAllProducts(db: Database, truncateOk: bool) returns (success: bool, message: string)
    requires db.Valid()
    modifies db
    ensures db.Valid()
    ensures success == truncateOk
    ensures success ==> db.products == [] && db.nextProductId == 1
                        && message == "Products cleared. Starting fresh synchronization..."
    ensures !success ==> db.products == old(db.products) && db.nextProductId == old(db.nextProductId)
                         && message == "Failed to clear products database"
    ensures db.categories == old(db.categories) && db.nextCategoryId == old(db.nextCategoryId)
  {
    var cleared := db.ClearProducts(truncateOk);
    if cleared {
      success, message := true, "Products cleared. Starting fresh synchronization...";
    } else {
      success, message := false, "Failed to clear products database";
    }
  }
}
