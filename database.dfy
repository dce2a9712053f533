/** The catalog store: the `wootowoo_products` and `wootowoo_categories`
    tables and the queries the sync engine runs against them. Each table is
    a `Table` of rows keyed by the remote identifier; all progress of a sync
    is read back from these two tables. */
module CatalogStore {
  import opened PhpValues
  import Table

  /** The columns of a product row besides `id` and `source_product_id`. */
  datatype ProductCols = ProductCols(
    sku: Value,
    productData: Doc,
    synchronised: bool,
    allVariationsObtained: bool,
    isVariableProduct: bool)

  /** The columns of a category row besides `id` and `source_category_id`. */
  datatype CategoryCols = CategoryCols(
    slug: Value,
    destinationCategoryId: Option<int>,
    categoryData: Doc,
    parentSourceId: Option<int>)

  type ProductRow = Table.Row<ProductCols>
  type CategoryRow = Table.Row<CategoryCols>

  /** The result of `get_product_id_gaps`. */
  datatype IdGaps = IdGaps(distinctIds: nat, totalRecords: nat, duplicates: int)

  /** The result of `get_sync_status`. */
  datatype SyncStatus = SyncStatus(
    products: nat,
    variableProducts: nat,
    completedVariations: nat,
    categories: nat,
    categoriesMapped: nat,
    isComplete: bool)

  /** A product is variable when its `type` is "variable" or it lists
      variation references. */
  predicate IsVariableProduct(p: Doc) {
    || (IsSet(p, "type") && p["type"] == Str("variable"))
    || (IsSet(p, "variations") && !IsEmpty(p["variations"]))
  }

  /** The row `replace` writes for a product, keyed by `intval(id)`. No row
      can be written when `id` is unset: `source_product_id` is NOT NULL. The
      flags the statement does not name take their column defaults. */
  function ProductWrite(p: Value): Option<(int, ProductCols)> {
    if HasKey(p, "id") then
      Some((IntVal(p.fields["id"]),
            ProductCols(Get(p.fields, "sku"), p.fields, false, false, IsVariableProduct(p.fields))))
    else None
  }

  /** The row `replace` writes for a category. `slug` is NOT NULL as well;
      `destination_category_id` takes its default NULL. */
  function CategoryWrite(c: Value): Option<(int, CategoryCols)> {
    if HasKey(c, "id") && HasKey(c, "slug") then
      var parent := if IsSet(c.fields, "parent") then Some(IntVal(c.fields["parent"])) else None;
      Some((IntVal(c.fields["id"]), CategoryCols(c.fields["slug"], None, c.fields, parent)))
    else None
  }

  predicate IsVariable(c: ProductCols) { c.isVariableProduct }
  predicate HasAllVariations(c: ProductCols) { c.isVariableProduct && c.allVariationsObtained }
  predicate NeedsVariations(c: ProductCols) { c.isVariableProduct && !c.allVariationsObtained }
  predicate IsMapped(c: CategoryCols) { c.destinationCategoryId.Some? }
  predicate IsUnmapped(c: CategoryCols) { c.destinationCategoryId.None? }

  /** The column update of `update_product_variations`. */
  function WithProductData(data: Doc): ProductCols -> ProductCols {
    (c: ProductCols) => c.(productData := data)
  }

  /** The column update of `update_product_with_variations`. */
  function WithAllVariations(data: Doc): ProductCols -> ProductCols {
    (c: ProductCols) => c.(productData := data, allVariationsObtained := true)
  }

  /** The column update of `update_category_destination_id`. */
  function WithDestination(destinationId: int): CategoryCols -> CategoryCols {
    (c: CategoryCols) => c.(destinationCategoryId := Some(destinationId))
  }

  /** `ORDER BY parent_source_id ASC`: NULL sorts before every value. */
  predicate ParentBefore(a: Option<int>, b: Option<int>) {
    (a.None? && b.Some?) || (a.Some? && b.Some? && a.value < b.value)
  }

  /** `ORDER BY parent_source_id ASC, id ASC`. */
  predicate MappingOrder(x: CategoryRow, y: CategoryRow) {
    || ParentBefore(x.cols.parentSourceId, y.cols.parentSourceId)
    || (x.cols.parentSourceId == y.cols.parentSourceId && x.id <= y.id)
  }

  ghost predicate SortedForMapping(s: seq<CategoryRow>) {
    forall i, j :: 0 <= i < j < |s| ==> MappingOrder(s[i], s[j])
  }

  function InsertForMapping(x: CategoryRow, s: seq<CategoryRow>): seq<CategoryRow> {
    if s == [] then [x]
    else if MappingOrder(x, s[0]) then [x] + s
    else [s[0]] + InsertForMapping(x, s[1..])
  }

  function SortForMapping(s: seq<CategoryRow>): seq<CategoryRow> {
    if s == [] then [] else InsertForMapping(s[0], SortForMapping(s[1..]))
  }

  /** `SELECT * ... WHERE destination_category_id IS NULL
      ORDER BY parent_source_id ASC, id ASC LIMIT n`. */
  function CategoriesNeedingDestination(rows: seq<CategoryRow>, limit: int): seq<CategoryRow> {
    Table.Limit(SortForMapping(Table.Where(rows, IsUnmapped)), limit)
  }

  /** `get_category_mapping`: source id to destination id, for mapped rows. */
  function CategoryMapping(rows: seq<CategoryRow>): map<int, int> {
    if rows == [] then map[]
    else
      var m := CategoryMapping(rows[1..]);
      if rows[0].cols.destinationCategoryId.Some? then m[rows[0].key := rows[0].cols.destinationCategoryId.value]
      else m
  }

  /** `MAX(source_product_id)` over a non-empty table. */
  function MaxKey(rows: seq<ProductRow>): (m: int)
    requires rows != []
    ensures m in Table.KeysOf(rows)
    ensures forall i :: 0 <= i < |rows| ==> rows[i].key <= m
  {
    if |rows| == 1 then rows[0].key
    else
      var rest := MaxKey(rows[1..]);
      assert forall i :: 1 <= i < |rows| ==> rows[i] == rows[1..][i - 1];
      if rows[0].key >= rest then rows[0].key else rest
  }

  /** The completeness verdict of `is_sync_complete`. */
  ghost predicate SyncComplete(products: seq<ProductRow>, categories: seq<CategoryRow>) {
    && |products| > 0
    && (forall i :: 0 <= i < |products| ==> !NeedsVariations(products[i].cols))
    && (forall i :: 0 <= i < |categories| ==> IsMapped(categories[i].cols))
  }

  // ---------------------------------------------------------------- lemmas

  /** Every variable row either has all its variations or still needs them,
      so the completed count never exceeds the variable count. */
  lemma {:induction false} VariableCountSplits(rows: seq<ProductRow>)
    ensures |Table.Where(rows, IsVariable)|
         == |Table.Where(rows, HasAllVariations)| + |Table.Where(rows, NeedsVariations)|
  {
    if rows != [] {
      VariableCountSplits(rows[1..]);
    }
  }

  /** The mapping order is total. */
  lemma MappingOrderTotal(x: CategoryRow, y: CategoryRow)
    ensures MappingOrder(x, y) || MappingOrder(y, x)
  {
  }

  /** The mapping order is transitive. */
  lemma MappingOrderTransitive(x: CategoryRow, y: CategoryRow, z: CategoryRow)
    requires MappingOrder(x, y) && MappingOrder(y, z)
    ensures MappingOrder(x, z)
  {
  }

  /** `y` sorts before every element of `s`. */
  ghost predicate SortsBefore(y: CategoryRow, s: seq<CategoryRow>) {
    forall j :: 0 <= j < |s| ==> MappingOrder(y, s[j])
  }

  lemma {:induction false} InsertKeepsBound(y: CategoryRow, x: CategoryRow, s: seq<CategoryRow>)
    requires SortsBefore(y, s) && MappingOrder(y, x)
    ensures SortsBefore(y, InsertForMapping(x, s))
  {
    if s != [] && !MappingOrder(x, s[0]) {
      InsertKeepsBound(y, x, s[1..]);
      var r := InsertForMapping(x, s[1..]);
      assert forall j :: 1 <= j < |r| + 1 ==> ([s[0]] + r)[j] == r[j - 1];
    }
  }

  lemma {:induction false} InsertForMappingSorted(x: CategoryRow, s: seq<CategoryRow>)
    requires SortedForMapping(s)
    ensures SortedForMapping(InsertForMapping(x, s))
  {
    if s == [] {
    } else if MappingOrder(x, s[0]) {
      forall j | 0 <= j < |s| ensures MappingOrder(x, s[j]) {
        if j > 0 {
          MappingOrderTransitive(x, s[0], s[j]);
        }
      }
      var t := [x] + s;
      assert forall j :: 1 <= j < |t| ==> t[j] == s[j - 1];
    } else {
      var rest := s[1..];
      assert SortedForMapping(rest);
      InsertForMappingSorted(x, rest);
      MappingOrderTotal(x, s[0]);
      assert SortsBefore(s[0], rest);
      InsertKeepsBound(s[0], x, rest);
      var r := InsertForMapping(x, rest);
      var t := [s[0]] + r;
      assert forall j :: 1 <= j < |t| ==> t[j] == r[j - 1];
    }
  }

  lemma {:induction false} InsertForMappingPermutes(x: CategoryRow, s: seq<CategoryRow>)
    ensures multiset(InsertForMapping(x, s)) == multiset(s) + multiset{x}
  {
    if s != [] && !MappingOrder(x, s[0]) {
      InsertForMappingPermutes(x, s[1..]);
      assert s == [s[0]] + s[1..];
    }
  }

  /** The materialisation order is a sorted permutation of the unmapped rows. */
  lemma {:induction false} SortForMappingSpec(s: seq<CategoryRow>)
    ensures SortedForMapping(SortForMapping(s))
    ensures multiset(SortForMapping(s)) == multiset(s)
  {
    if s != [] {
      SortForMappingSpec(s[1..]);
      InsertForMappingSorted(s[0], SortForMapping(s[1..]));
      InsertForMappingPermutes(s[0], SortForMapping(s[1..]));
      assert s == [s[0]] + s[1..];
    }
  }

  /** A limited prefix of a sorted sequence is sorted, and what it leaves out
      sorts after what it keeps. */
  lemma LimitOfSorted(s: seq<CategoryRow>, limit: int)
    requires SortedForMapping(s)
    ensures var r := Table.Limit(s, limit);
            && (limit >= 0 ==> |r| <= limit)
            && (limit >= 0 ==> |r| == if limit < |s| then limit else |s|)
            && SortedForMapping(r)
            && (forall x :: x in r ==> x in s)
            && (forall x, y :: x in s && x !in r && y in r ==> MappingOrder(y, x))
            && (r == [] <==> limit <= 0 || s == [])
  {
    var r := Table.Limit(s, limit);
    forall x, y | x in s && x !in r && y in r ensures MappingOrder(y, x) {
      var i :| 0 <= i < |s| && s[i] == x;
      var j :| 0 <= j < |r| && r[j] == y;
      assert s[j] == y;
      assert j < i;
    }
  }

  /** `get_categories_needing_destination_id(limit)` returns at most `limit`
      unmapped rows, in (parent NULL first, parent, id) order, and every
      unmapped row left out sorts after every row returned. */
  lemma CategoriesNeedingDestinationSpec(rows: seq<CategoryRow>, limit: int)
    ensures var r := CategoriesNeedingDestination(rows, limit);
            && (limit >= 0 ==> |r| <= limit)
            && (var unmapped := |Table.Where(rows, IsUnmapped)|;
                limit >= 0 ==> |r| == if limit < unmapped then limit else unmapped)
            && SortedForMapping(r)
            && (forall x :: x in r ==> x in rows && IsUnmapped(x.cols))
            && (forall x, y :: x in rows && IsUnmapped(x.cols) && x !in r && y in r ==> MappingOrder(y, x))
            && (r == [] <==> limit <= 0 || forall i :: 0 <= i < |rows| ==> IsMapped(rows[i].cols))
  {
    var w := Table.Where(rows, IsUnmapped);
    var sorted := SortForMapping(w);
    SortForMappingSpec(w);
    Table.WhereEmpty(rows, IsUnmapped);
    LimitOfSorted(sorted, limit);
    forall x ensures x in sorted <==> x in rows && IsUnmapped(x.cols) {
      Table.WhereMember(rows, IsUnmapped, x);
      assert x in sorted <==> x in multiset(sorted);
      assert x in w <==> x in multiset(w);
    }
    assert |sorted| == |w| by {
      assert |multiset(sorted)| == |sorted| && |multiset(w)| == |w|;
    }
  }

  /** The source ids `get_category_mapping` returns are those of the mapped rows. */
  lemma {:induction false} CategoryMappingKeys(rows: seq<CategoryRow>)
    ensures CategoryMapping(rows).Keys == Table.KeysOf(Table.Where(rows, IsMapped))
  {
    if rows != [] {
      var rest := rows[1..];
      CategoryMappingKeys(rest);
      var w, wr := Table.Where(rows, IsMapped), Table.Where(rest, IsMapped);
      if IsMapped(rows[0].cols) {
        assert w[0] == rows[0] && w[1..] == wr;
        Table.KeysOfHead(w);
      } else {
        assert w == wr;
      }
    }
  }

  /** Under the unique key, the mapping holds every mapped row's destination
      under its source id, and no unmapped row's source id. */
  lemma {:induction false} CategoryMappingAt(rows: seq<CategoryRow>, nextId: nat, i: nat)
    requires Table.Valid(rows, nextId) && i < |rows|
    ensures var m := CategoryMapping(rows);
            && (rows[i].key in m <==> IsMapped(rows[i].cols))
            && (rows[i].key in m ==> m[rows[i].key] == rows[i].cols.destinationCategoryId.value)
  {
    var rest := rows[1..];
    assert Table.Valid(rest, nextId);
    if i == 0 {
      CategoryMappingKeys(rest);
      Table.WhereOrder(rest, IsMapped);
      var w := Table.Where(rest, IsMapped);
      forall k | 0 <= k < |w| ensures w[k].key != rows[0].key {
        Table.WhereMember(rest, IsMapped, w[k]);
        var a :| 0 <= a < |rest| && rest[a] == w[k];
        assert rows[a + 1] == w[k];
      }
      assert rows[0].key !in CategoryMapping(rest);
    } else {
      CategoryMappingAt(rest, nextId, i - 1);
      assert rest[i - 1] == rows[i];
    }
  }

  /** Under the unique key, `get_category_mapping` holds one entry per mapped
      row, from its source id to its destination id, and nothing else. */
  lemma CategoryMappingSpec(rows: seq<CategoryRow>, nextId: nat)
    requires Table.Valid(rows, nextId)
    ensures var m := CategoryMapping(rows);
            && m.Keys == Table.KeysOf(Table.Where(rows, IsMapped))
            && (forall i :: 0 <= i < |rows| ==>
                 && (rows[i].key in m <==> IsMapped(rows[i].cols))
                 && (rows[i].key in m ==> m[rows[i].key] == rows[i].cols.destinationCategoryId.value))
            && |m| == |Table.Where(rows, IsMapped)|
  {
    var m := CategoryMapping(rows);
    CategoryMappingKeys(rows);
    forall i | 0 <= i < |rows|
      ensures && (rows[i].key in m <==> IsMapped(rows[i].cols))
              && (rows[i].key in m ==> m[rows[i].key] == rows[i].cols.destinationCategoryId.value)
    {
      CategoryMappingAt(rows, nextId, i);
    }
    Table.WhereValid(rows, nextId, IsMapped);
    Table.ValidCountIsKeyCount(Table.Where(rows, IsMapped), nextId);
    assert |m| == |m.Keys|;
  }

  /** The verdict of `is_sync_complete` in terms of the three counts it reads. */
  lemma CompletenessByCounts(products: seq<ProductRow>, categories: seq<CategoryRow>)
    ensures SyncComplete(products, categories) <==>
      && |products| > 0
      && |Table.Where(products, IsVariable)| <= |Table.Where(products, HasAllVariations)|
      && CategoriesNeedingDestination(categories, 1) == []
  {
    VariableCountSplits(products);
    Table.WhereEmpty(products, NeedsVariations);
    CategoriesNeedingDestinationSpec(categories, 1);
  }

  /** After `insert_products`, the row under source id `k` holds the last
      batch element written under `k` (no later element is written under
      `k`): its sku, its whole payload, the variable flag computed from it,
      and `synchronised` and `allVariationsObtained` back at their default 0,
      even when the replaced row had them set. A key the batch did not write
      keeps its row. */
  lemma InsertedProductIsLastElement(rows: seq<ProductRow>, nextId: nat, batch: seq<Value>, writeOk: nat -> bool, k: int)
    ensures var after := Table.UpsertAll(rows, nextId, Table.Writes(batch, writeOk, ProductWrite)).0;
            var found := Table.Find(after, k);
            match Table.LastWrite(batch, writeOk, ProductWrite, k)
            case Some(j) =>
              && j < |batch| && writeOk(j) && HasKey(batch[j], "id") && IntVal(batch[j].fields["id"]) == k
              && (forall i :: j < i < |batch| && writeOk(i) && HasKey(batch[i], "id") ==> IntVal(batch[i].fields["id"]) != k)
              && found.Some? && found.value.key == k
              && found.value.cols == ProductCols(Get(batch[j].fields, "sku"), batch[j].fields, false, false,
                                                 IsVariableProduct(batch[j].fields))
            case None => found == Table.Find(rows, k)
  {
    Table.LastForWrites(batch, writeOk, ProductWrite, k);
    Table.UpsertAllFind(rows, nextId, Table.Writes(batch, writeOk, ProductWrite), k);
  }

  /** After `insert_categories`, the row under source id `k` holds the last
      batch element written under `k`, with its parent id and with
      `destination_category_id` back at NULL, even when the replaced row
      had been mapped. A key the batch did not write keeps its row. */
  lemma InsertedCategoryIsLastElement(rows: seq<CategoryRow>, nextId: nat, batch: seq<Value>, writeOk: nat -> bool, k: int)
    ensures var after := Table.UpsertAll(rows, nextId, Table.Writes(batch, writeOk, CategoryWrite)).0;
            var found := Table.Find(after, k);
            match Table.LastWrite(batch, writeOk, CategoryWrite, k)
            case Some(j) =>
              && j < |batch| && writeOk(j) && HasKey(batch[j], "id") && HasKey(batch[j], "slug")
              && IntVal(batch[j].fields["id"]) == k
              && (forall i :: j < i < |batch| && writeOk(i) && HasKey(batch[i], "id") && HasKey(batch[i], "slug")
                    ==> IntVal(batch[i].fields["id"]) != k)
              && found.Some? && found.value.key == k
              && found.value.cols.destinationCategoryId == None
              && found.value.cols.slug == batch[j].fields["slug"]
              && found.value.cols.categoryData == batch[j].fields
              && found.value.cols.parentSourceId
                 == (if IsSet(batch[j].fields, "parent") then Some(IntVal(batch[j].fields["parent"])) else None)
            case None => found == Table.Find(rows, k)
  {
    Table.LastForWrites(batch, writeOk, CategoryWrite, k);
    Table.UpsertAllFind(rows, nextId, Table.Writes(batch, writeOk, CategoryWrite), k);
  }

  /** Upserting the same batch twice leaves the same source ids, the same row
      count and the same stored columns as upserting it once. */
  lemma InsertProductsIdempotent(rows: seq<ProductRow>, nextId: nat, batch: seq<Value>, writeOk: nat -> bool, k: int)
    requires Table.Valid(rows, nextId)
    ensures var ws := Table.Writes(batch, writeOk, ProductWrite);
            var once := Table.UpsertAll(rows, nextId, ws);
            var twice := Table.UpsertAll(once.0, once.1, ws);
            && Table.KeysOf(twice.0) == Table.KeysOf(once.0)
            && |twice.0| == |once.0|
            && (Table.Find(twice.0, k).Some? <==> Table.Find(once.0, k).Some?)
            && (Table.Find(twice.0, k).Some? ==> Table.Find(twice.0, k).value.cols == Table.Find(once.0, k).value.cols)
  {
    Table.UpsertReplay(rows, nextId, Table.Writes(batch, writeOk, ProductWrite), k);
  }

  /** `get_variable_products` returns exactly the variable rows, each once,
      in ascending id order. */
  lemma VariableProductsSpec(rows: seq<ProductRow>, nextId: nat)
    requires Table.Valid(rows, nextId)
    ensures var v := Table.Where(rows, IsVariable);
            && Table.IdsAscending(v)
            && (forall r :: r in v <==> r in rows && r.cols.isVariableProduct)
            && (forall m, n :: 0 <= m < n < |v| ==> v[m].key != v[n].key)
  {
    var v := Table.Where(rows, IsVariable);
    Table.WhereOrder(rows, IsVariable);
    forall r ensures r in v <==> r in rows && r.cols.isVariableProduct {
      Table.WhereMember(rows, IsVariable, r);
    }
    forall m, n | 0 <= m < n < |v| ensures v[m].key != v[n].key {
      assert v[m] in v && v[n] in v;
      var a :| 0 <= a < |rows| && rows[a] == v[m];
      var b :| 0 <= b < |rows| && rows[b] == v[n];
      assert a != b;
    }
  }

  /** The two tables. Each is a sequence of rows in ascending `id` order plus
      its next AUTO_INCREMENT value. */
  class Database {
    var products: seq<ProductRow>
    var nextProductId: nat
    var categories: seq<CategoryRow>
    var nextCategoryId: nat

    ghost predicate Valid()
      reads this
    {
      Table.Valid(products, nextProductId) && Table.Valid(categories, nextCategoryId)
    }

    /** Freshly created, empty tables. */
    constructor ()
      ensures Valid()
      ensures products == [] && categories == []
    {
      products, nextProductId := [], 1;
      categories, nextCategoryId := [], 1;
    }

    /** One `REPLACE` into the product table. */
    method ReplaceProduct(key: int, cols: ProductCols)
      requires Valid()
      modifies this
      ensures Valid()
      ensures (products, nextProductId) == Table.Replace(old(products), old(nextProductId), key, cols)
      ensures categories == old(categories) && nextCategoryId == old(nextCategoryId)
    {
      Table.ReplaceValid(products, nextProductId, key, cols);
      products := Table.Without(products, key) + [Table.Row(nextProductId, key, cols)];
      nextProductId := nextProductId + 1;
    }

    /** One `REPLACE` into the category table. */
    method ReplaceCategory(key: int, cols: CategoryCols)
      requires Valid()
      modifies this
      ensures Valid()
      ensures (categories, nextCategoryId) == Table.Replace(old(categories), old(nextCategoryId), key, cols)
      ensures products == old(products) && nextProductId == old(nextProductId)
    {
      Table.ReplaceValid(categories, nextCategoryId, key, cols);
      categories := Table.Without(categories, key) + [Table.Row(nextCategoryId, key, cols)];
      nextCategoryId := nextCategoryId + 1;
    }

    method GetProductsCount() returns (count: nat)
      requires Valid()
      ensures count == |products| == |Table.KeysOf(products)|
    {
      Table.ValidCountIsKeyCount(products, nextProductId);
      count := |products|;
    }

    /** `(int) MAX(source_product_id)`: 0 on an empty table. */
    method GetLastSyncedProductId() returns (id: int)
      requires Valid()
      ensures products == [] ==> id == 0
      ensures products != [] ==> id in Table.KeysOf(products)
      ensures forall i :: 0 <= i < |products| ==> products[i].key <= id
    {
      id := if products == [] then 0 else MaxKey(products);
    }

    /** Upserts a batch of remote products, one `REPLACE` per element.
        `writeOk(i)` is the database's answer to statement `i`. */
    method InsertProducts(batch: seq<Value>, writeOk: nat -> bool) returns (insertedCount: nat)
      requires Valid()
      modifies this
      ensures Valid()
      ensures (products, nextProductId)
           == Table.UpsertAll(old(products), old(nextProductId), Table.Writes(batch, writeOk, ProductWrite))
      ensures insertedCount == |Table.Writes(batch, writeOk, ProductWrite)| <= |batch|
      ensures categories == old(categories) && nextCategoryId == old(nextCategoryId)
    {
      ghost var rows0, next0 := products, nextProductId;
      ghost var written: seq<(int, ProductCols)> := [];
      insertedCount := 0;
      var failedCount := 0;
      var i := 0;
      while i < |batch|
        invariant 0 <= i <= |batch|
        invariant Valid()
        invariant written == Table.Writes(batch[..i], writeOk, ProductWrite)
        invariant (products, nextProductId) == Table.UpsertAll(rows0, next0, written)
        invariant insertedCount == |written| && insertedCount + failedCount == i
        invariant categories == old(categories) && nextCategoryId == old(nextCategoryId)
      {
        var product := batch[i];
        var isVariable := false;
        if product.Obj? && IsSet(product.fields, "type") && product.fields["type"] == Str("variable") {
          isVariable := true;
        } else if product.Obj? && IsSet(product.fields, "variations") && !IsEmpty(product.fields["variations"]) {
          isVariable := true;
        }
        // a NULL `source_product_id` makes the statement fail
        var result := HasKey(product, "id") && writeOk(i);
        Table.WritesStep(batch, i, writeOk, ProductWrite);
        if result {
          var key := IntVal(product.fields["id"]);
          var cols := ProductCols(Get(product.fields, "sku"), product.fields, false, false, isVariable);
          assert ProductWrite(product) == Some((key, cols));
          Table.UpsertAllStep(rows0, next0, written, (key, cols));
          ReplaceProduct(key, cols);
          written := written + [(key, cols)];
          insertedCount := insertedCount + 1;
        } else {
          failedCount := failedCount + 1;
        }
        i := i + 1;
      }
      assert batch[..i] == batch;
      Table.WritesBound(batch, writeOk, ProductWrite);
    }

    /** `COUNT(DISTINCT source_product_id)` against `COUNT(*)`. */
    method GetProductIdGaps() returns (gaps: IdGaps)
      requires Valid()
      ensures gaps.distinctIds == |Table.KeysOf(products)|
      ensures gaps.totalRecords == |products|
      ensures gaps.duplicates == 0
    {
      var distinctCount := |Table.KeysOf(products)|;
      var totalCount := GetProductsCount();
      gaps := IdGaps(distinctCount, totalCount, totalCount - distinctCount);
    }

    /** `SELECT ... WHERE isVariableProduct = 1`, in table order. */
    method GetVariableProducts() returns (rows: seq<ProductRow>)
      requires Valid()
      ensures rows == Table.Where(products, IsVariable)
      ensures Table.IdsAscending(rows)
    {
      rows := Table.Where(products, IsVariable);
      Table.WhereOrder(products, IsVariable);
    }

    method GetVariableProductsCount() returns (count: nat)
      requires Valid()
      ensures count == |Table.Where(products, IsVariable)|
    {
      count := |Table.Where(products, IsVariable)|;
    }

    method GetCompletedVariableProductsCount() returns (count: nat)
      requires Valid()
      ensures count == |Table.Where(products, HasAllVariations)|
      ensures count <= |Table.Where(products, IsVariable)|
    {
      VariableCountSplits(products);
      count := |Table.Where(products, HasAllVariations)|;
    }

    /** `... WHERE isVariableProduct = 1 AND allVariationsObtained = 0
        ORDER BY id ASC LIMIT limit`. */
    method GetVariableProductsNeedingVariations(limit: int) returns (rows: seq<ProductRow>)
      requires Valid()
      ensures rows == Table.Limit(Table.Where(products, NeedsVariations), limit)
      ensures limit >= 0 ==> |rows| <= limit
      ensures var pending := |Table.Where(products, NeedsVariations)|;
              limit >= 0 ==> |rows| == if limit < pending then limit else pending
      ensures rows == [] <==> limit <= 0 || forall i :: 0 <= i < |products| ==> !NeedsVariations(products[i].cols)
      ensures Table.IdsAscending(rows)
      ensures forall r :: r in rows ==> r in products && NeedsVariations(r.cols)
      ensures forall r, s :: r in products && NeedsVariations(r.cols) && r !in rows && s in rows ==> s.id < r.id
    {
      Table.SmallestIdsFirst(products, NeedsVariations, limit);
      rows := Table.Limit(Table.Where(products, NeedsVariations), limit);
    }

    /** Replaces the stored payload of the product with that source id and
        leaves its flags alone. `updateOk` is the database's answer; a
        statement that matches no row still succeeds. */
    method UpdateProductVariations(productId: int, updatedData: Doc, updateOk: bool) returns (ok: bool)
      requires Valid()
      modifies this
      ensures Valid()
      ensures ok == updateOk
      ensures products == if updateOk then Table.Update(old(products), productId, WithProductData(updatedData))
                          else old(products)
      ensures |products| == |old(products)|
      ensures forall i :: 0 <= i < |products| ==>
                && products[i].id == old(products)[i].id
                && products[i].key == old(products)[i].key
                && products[i].cols == if updateOk && products[i].key == productId
                                       then old(products)[i].cols.(productData := updatedData)
                                       else old(products)[i].cols
      ensures nextProductId == old(nextProductId)
      ensures categories == old(categories) && nextCategoryId == old(nextCategoryId)
    {
      if updateOk {
        Table.UpdateValid(products, nextProductId, productId, WithProductData(updatedData));
        products := Table.Update(products, productId, WithProductData(updatedData));
      }
      ok := updateOk;
    }

    /** Replaces the stored payload of the product with that source id and
        marks all its variations obtained. */
    method UpdateProductWithVariations(productId: int, updatedData: Doc, updateOk: bool) returns (ok: bool)
      requires Valid()
      modifies this
      ensures Valid()
      ensures ok == updateOk
      ensures |products| == |old(products)|
      ensures forall i :: 0 <= i < |products| ==>
                && products[i].id == old(products)[i].id
                && products[i].key == old(products)[i].key
                && products[i].cols == if updateOk && products[i].key == productId
                                       then old(products)[i].cols.(productData := updatedData, allVariationsObtained := true)
                                       else old(products)[i].cols
      ensures nextProductId == old(nextProductId)
      ensures categories == old(categories) && nextCategoryId == old(nextCategoryId)
    {
      if updateOk {
        Table.UpdateValid(products, nextProductId, productId, WithAllVariations(updatedData));
        products := Table.Update(products, productId, WithAllVariations(updatedData));
      }
      ok := updateOk;
    }

    /** `TRUNCATE` of the product table; it also resets AUTO_INCREMENT. */
    method ClearProducts(truncateOk: bool) returns (ok: bool)
      requires Valid()
      modifies this
      ensures Valid()
      ensures ok == truncateOk
      ensures ok ==> products == [] && nextProductId == 1
      ensures !ok ==> products == old(products) && nextProductId == old(nextProductId)
      ensures categories == old(categories) && nextCategoryId == old(nextCategoryId)
    {
      if truncateOk {
        products, nextProductId := [], 1;
      }
      ok := truncateOk;
    }

    /** Upserts a batch of remote categories, one `REPLACE` per element. */
    method InsertCategories(batch: seq<Value>, writeOk: nat -> bool) returns (insertedCount: nat)
      requires Valid()
      modifies this
      ensures Valid()
      ensures (categories, nextCategoryId)
           == Table.UpsertAll(old(categories), old(nextCategoryId), Table.Writes(batch, writeOk, CategoryWrite))
      ensures insertedCount == |Table.Writes(batch, writeOk, CategoryWrite)| <= |batch|
      ensures products == old(products) && nextProductId == old(nextProductId)
    {
      ghost var rows0, next0 := categories, nextCategoryId;
      ghost var written: seq<(int, CategoryCols)> := [];
      insertedCount := 0;
      var failedCount := 0;
      var i := 0;
      while i < |batch|
        invariant 0 <= i <= |batch|
        invariant Valid()
        invariant written == Table.Writes(batch[..i], writeOk, CategoryWrite)
        invariant (categories, nextCategoryId) == Table.UpsertAll(rows0, next0, written)
        invariant insertedCount == |written| && insertedCount + failedCount == i
        invariant products == old(products) && nextProductId == old(nextProductId)
      {
        var category := batch[i];
        // a NULL `source_category_id` or `slug` makes the statement fail
        var result := HasKey(category, "id") && HasKey(category, "slug") && writeOk(i);
        Table.WritesStep(batch, i, writeOk, CategoryWrite);
        if result {
          var key := IntVal(category.fields["id"]);
          var parent := if IsSet(category.fields, "parent") then Some(IntVal(category.fields["parent"])) else None;
          var cols := CategoryCols(category.fields["slug"], None, category.fields, parent);
          assert CategoryWrite(category) == Some((key, cols));
          Table.UpsertAllStep(rows0, next0, written, (key, cols));
          ReplaceCategory(key, cols);
          written := written + [(key, cols)];
          insertedCount := insertedCount + 1;
        } else {
          failedCount := failedCount + 1;
        }
        i := i + 1;
      }
      assert batch[..i] == batch;
      Table.WritesBound(batch, writeOk, CategoryWrite);
    }

    method GetCategoriesCount() returns (count: nat)
      requires Valid()
      ensures count == |categories| == |Table.KeysOf(categories)|
    {
      Table.ValidCountIsKeyCount(categories, nextCategoryId);
      count := |categories|;
    }

    /** The unmapped categories in materialisation order: parents with a NULL
        `parent_source_id` first, then by parent id, then by row id. */
    method GetCategoriesNeedingDestinationId(limit: int) returns (rows: seq<CategoryRow>)
      requires Valid()
      ensures rows == CategoriesNeedingDestination(categories, limit)
      ensures limit >= 0 ==> |rows| <= limit
      ensures var unmapped := |Table.Where(categories, IsUnmapped)|;
              limit >= 0 ==> |rows| == if limit < unmapped then limit else unmapped
      ensures rows == [] <==> limit <= 0 || forall i :: 0 <= i < |categories| ==> IsMapped(categories[i].cols)
      ensures SortedForMapping(rows)
      ensures forall r :: r in rows ==> r in categories && IsUnmapped(r.cols)
      ensures forall r, s :: r in categories && IsUnmapped(r.cols) && r !in rows && s in rows ==> MappingOrder(s, r)
    {
      CategoriesNeedingDestinationSpec(categories, limit);
      rows := CategoriesNeedingDestination(categories, limit);
    }

    /** Sets the destination id of the category with that source id. */
    method UpdateCategoryDestinationId(sourceId: int, destinationId: int, updateOk: bool) returns (ok: bool)
      requires Valid()
      modifies this
      ensures Valid()
      ensures ok == updateOk
      ensures |categories| == |old(categories)|
      ensures forall i :: 0 <= i < |categories| ==>
                && categories[i].id == old(categories)[i].id
                && categories[i].key == old(categories)[i].key
                && categories[i].cols == if updateOk && categories[i].key == sourceId
                                         then old(categories)[i].cols.(destinationCategoryId := Some(destinationId))
                                         else old(categories)[i].cols
      ensures nextCategoryId == old(nextCategoryId)
      ensures products == old(products) && nextProductId == old(nextProductId)
    {
      if updateOk {
        Table.UpdateValid(categories, nextCategoryId, sourceId, WithDestination(destinationId));
        categories := Table.Update(categories, sourceId, WithDestination(destinationId));
      }
      ok := updateOk;
    }

    /** Source id to destination id for every mapped category. */
    method GetCategoryMapping() returns (mapping: map<int, int>)
      requires Valid()
      ensures mapping.Keys == Table.KeysOf(Table.Where(categories, IsMapped))
      ensures forall i :: 0 <= i < |categories| ==>
        && (categories[i].key in mapping <==> IsMapped(categories[i].cols))
        && (categories[i].key in mapping ==> mapping[categories[i].key] == categories[i].cols.destinationCategoryId.value)
      ensures |mapping| == |Table.Where(categories, IsMapped)|
    {
      CategoryMappingSpec(categories, nextCategoryId);
      mapping := CategoryMapping(categories);
    }

    /** `TRUNCATE` of the category table. */
    method ClearCategories(truncateOk: bool) returns (ok: bool)
      requires Valid()
      modifies this
      ensures Valid()
      ensures ok == truncateOk
      ensures ok ==> categories == [] && nextCategoryId == 1
      ensures !ok ==> categories == old(categories) && nextCategoryId == old(nextCategoryId)
      ensures products == old(products) && nextProductId == old(nextProductId)
    {
      if truncateOk {
        categories, nextCategoryId := [], 1;
      }
      ok := truncateOk;
    }

    /** Products exist, no variable product still needs its variations, and
        no category lacks a destination id. */
    method IsSyncComplete() returns (complete: bool)
      requires Valid()
      ensures complete <==> SyncComplete(products, categories)
    {
      CompletenessByCounts(products, categories);
      var productCount := GetProductsCount();
      if productCount == 0 {
        return false;
      }
      var variableCount := GetVariableProductsCount();
      var completedVariations := GetCompletedVariableProductsCount();
      if variableCount > completedVariations {
        return false;
      }
      var categoriesNeedingMapping := GetCategoriesNeedingDestinationId(1);
      if categoriesNeedingMapping != [] {
        return false;
      }
      return true;
    }

    method GetSyncStatus() returns (status: SyncStatus)
      requires Valid()
      ensures status.products == |products|
      ensures status.variableProducts == |Table.Where(products, IsVariable)|
      ensures status.completedVariations == |Table.Where(products, HasAllVariations)| <= status.variableProducts
      ensures status.categories == |categories|
      ensures status.categoriesMapped == |Table.Where(categories, IsMapped)|
      ensures status.isComplete <==> SyncComplete(products, categories)
    {
      var productCount := GetProductsCount();
      var variableCount := GetVariableProductsCount();
      var completedVariations := GetCompletedVariableProductsCount();
      var categoryCount := GetCategoriesCount();
      var mapping := GetCategoryMapping();
      var isComplete := IsSyncComplete();
      status := SyncStatus(productCount, variableCount, completedVariations, categoryCount, |mapping|, isComplete);
    }
  }
}
