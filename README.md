# wootowoo sync engine — a Dafny model

wootowoo is a WordPress plugin. It copies a WooCommerce catalog from a remote
shop into two local tables. It works through the shop's REST API, one page of
products per call, and can resume after an interruption. This project models
the four parts of the plugin that decide what ends up in those tables, and
proves properties of the model:

- **Catalog store** (`database.dfy`, module `CatalogStore`, on top of the
  generic table model in `table.dfy`, module `Table`).
  - The `wootowoo_products` and `wootowoo_categories` tables are a class
    `Database` with one `seq` of rows per table and one auto-increment counter
    per table.
  - `REPLACE INTO` on the unique source id removes the old row and appends a
    fresh one. `UPDATE ... WHERE source_id` changes rows in place. `TRUNCATE`
    empties a table.
  - The queries are filters (`Where`), orderings and `LIMIT`s over the rows.
  - Whether the database accepts a statement is a parameter (`writeOk`,
    `updateOk`, `truncateOk`).
- **Sync service** (`sync_service.dfy`, module `SyncService`).
  - One product page per call. A request for page 1 resumes after the pages
    the store already holds.
  - The pass that fetches every variable product's variation list and writes
    it into the stored payload.
  - The reset.
  - The remote API is a parameter: a function from the request to
    `Fetched(payload)` or `FetchFailed(message)`.
- **Product processor** (`product_processor.dfy`, module `ProductProcessor`).
  - Validation of a product, whitelisting sanitisation, filter-and-sanitise of
    a batch, merging variations into a product, category extraction, and the
    mapping to a local post.
  - Each `foreach` that builds an array is a method with a loop. Its
    `ensures` ties the result to a pure function, and the lemmas beside it
    state what the source promises about that function.
- **Configuration** (`config.dfy`, module `Config`).
  - The three options that hold the shop address and the REST credentials,
    in a class `Settings` over an options map.
  - The save handler, which builds its error list step by step and writes
    the options only when the list is empty.
  - The guard checks of the connection test. The HTTP round trip is a
    parameter.
- **PHP values** (`php_values.dfy`, module `PhpValues`).
  - Decoded JSON as a datatype.
  - The PHP built-ins the core relies on: `isset`, `empty` (where `"0"` is
    empty), `is_numeric`, `intval` on strings, `rtrim`, and integer-to-string
    conversion.
  - WordPress sanitisers, `FILTER_VALIDATE_URL` and `base64_encode` are
    function fields of a `WordPress` value passed in.

A table is valid (`Table.Valid`) when:

- row ids strictly ascend along the sequence, which is the order of
  `ORDER BY id`;
- every id lies below the next auto-increment value;
- no two rows share a source id, which is the unique key.

Every state-changing method keeps this invariant. The upsert lemmas show what
a batch leaves behind:

- the last successful write for each source id wins;
- source ids the batch does not touch keep their rows;
- replaying a batch reproduces the same contents.

Three behaviours of the code shape what a sync leaves behind:

- Re-syncing a product.
  - `insert_products` uses `REPLACE INTO`, which deletes the stored row and
    inserts a new one. The "all variations obtained" flag therefore returns
    to its column default 0. Re-inserting a category likewise resets its
    destination id to NULL.
  - `CatalogStore.InsertedProductIsLastElement` and
    `CatalogStore.InsertedCategoryIsLastElement` state this.
- The variation pass.
  - `sync_variations` loops over all variable products and calls
    `update_product_variations`, which writes only `product_data`. It never
    sets the flag, so it cannot complete a sync.
  - `SyncService.SyncedVariationsKeepsFlags` proves this.
- The product page.
  - `sync_products_page` passes the raw page to `insert_products` without
    validating it. A product without an `id` fails there, on the NOT NULL
    column.

## Model

| member | source | states |
|---|---|---|
| PhpValues.TrimTrailingSlashes | includes/core/class-config.php:90 | `rtrim($url, '/')` returns a prefix of its input that does not end in `/`, and everything it removed was `/` |
| Table.FindUnique | includes/core/class-database.php:39 | under the unique source-id key, looking up a row's source id finds exactly that row |
| Table.ReplaceValid | includes/core/class-database.php:105-121 | one `REPLACE` keeps ids ascending, below the counter, and source ids unique |
| Table.FindReplace | includes/core/class-database.php:105-121 | after `REPLACE` the replaced source id holds the new row with the fresh id; every other source id finds what it found before |
| Table.UpsertAllValid | includes/core/class-database.php:86-136 | a run of upserts keeps the table valid and advances the counter by the number of writes |
| Table.UpsertAllFind | includes/core/class-database.php:86-136 | after a run of upserts a written source id holds the last columns written for it, with an id from this run; an unwritten one finds its old row |
| Table.UpsertAllKeys | includes/core/class-database.php:86-136 | the source ids after a run of upserts are the old ones plus the written ones |
| Table.UpsertReplay | includes/core/class-database.php:86-136 | upserting the same run again leaves the same source ids, row count and stored columns |
| Table.ValidCountIsKeyCount | includes/core/class-database.php:138-152 | in a valid table the row count equals the count of distinct source ids |
| Table.WithoutValid | includes/core/class-database.php:105-121 | deleting the rows of one source id keeps the table valid |
| Table.FindWithout | includes/core/class-database.php:105-121 | after the delete, that source id finds nothing and every other one finds what it found before |
| Table.Without | includes/core/class-database.php:105-121 | the delete half of `REPLACE` leaves no row of that source id and never adds rows |
| Table.Replace | includes/core/class-database.php:105-121 | `REPLACE` leaves the new row, with the counter's id, last; the counter advances by one; no earlier row keeps the replaced source id |
| Table.UpdateValid | includes/core/class-database.php:198-215 | `UPDATE ... WHERE source_id = k` keeps the table valid; only the row of `k` changes, through the column update |
| Table.Update | includes/core/class-database.php:198-215 | the update keeps the row count and every row's id and source id, and changes the columns only of the row keyed `k`, through the column update |
| Table.WhereMember | includes/core/class-database.php:154-164 | a `WHERE` filter returns exactly the rows satisfying the condition |
| Table.WhereOrder | includes/core/class-database.php:154-164 | the filter is no longer than the table and keeps ascending ids ascending |
| Table.WhereValid | includes/core/class-database.php:320-331 | a filtered valid table is valid, so its source ids are distinct |
| Table.Where | includes/core/class-database.php:154-164 | every row a `WHERE` filter returns satisfies the condition, and the filter is never longer than the table |
| Table.WhereEmpty | includes/core/class-database.php:341-364 | a filter is empty exactly when no row satisfies its condition |
| Table.Limit | includes/core/class-database.php:182-196 | `LIMIT n` keeps the first `min(n, count)` rows; a negative limit, a syntax error, yields nothing |
| Table.SmallestIdsFirst | includes/core/class-database.php:182-196 | `WHERE p ORDER BY id LIMIT n` returns the `min(n, matching)` matching rows of smallest id, in id order: every matching row left out has a larger id than all returned; empty exactly when `n <= 0` or no row matches |
| Table.LastForWrites | includes/core/class-database.php:93-129 | the last write for a source id comes from the last batch element that has that id and whose statement succeeded; no later successful element writes that id |
| Table.WritesBound | includes/core/class-database.php:93-129 | a batch never writes more rows than it has elements |
| CatalogStore.MaxKey | includes/core/class-database.php:78-84 | `MAX(source_product_id)` is a source id of the table and at least every source id in it |
| CatalogStore.InsertedProductIsLastElement | includes/core/class-database.php:86-136 | after `insert_products`, a source id holds the last successfully written element with that id (its sku, its whole payload, the variable flag derived from it) with both progress flags reset to 0; an id the batch did not write keeps its row |
| CatalogStore.InsertedCategoryIsLastElement | includes/core/class-database.php:246-275 | after `insert_categories`, a source id holds the last successfully written category with that id (its slug, payload and parent id) and destination NULL; elements without id or slug write nothing |
| CatalogStore.InsertProductsIdempotent | includes/core/class-database.php:86-136 | inserting the same page twice leaves the same source ids, row count and stored columns as inserting it once |
| CatalogStore.VariableProductsSpec | includes/core/class-database.php:154-164 | `get_variable_products` returns exactly the variable rows, in ascending id order, each source id once |
| CatalogStore.VariableCountSplits | includes/core/class-database.php:166-180 | the completed variable count equals the variable count minus those still needing variations, so it never exceeds the variable count |
| CatalogStore.SortForMappingSpec | includes/core/class-database.php:285-299 | the category order (`parent_source_id ASC` with NULL first, then `id ASC`) sorts the rows and is a permutation of them |
| CatalogStore.MappingOrderTotal | includes/core/class-database.php:291-294 | any two categories are comparable in that order |
| CatalogStore.MappingOrderTransitive | includes/core/class-database.php:291-294 | the order is transitive |
| CatalogStore.InsertForMappingSorted | includes/core/class-database.php:291-294 | inserting a row into a sorted run keeps it sorted |
| CatalogStore.InsertForMappingPermutes | includes/core/class-database.php:291-294 | insertion adds exactly that row to the multiset |
| CatalogStore.LimitOfSorted | includes/core/class-database.php:285-299 | `LIMIT n` on a sorted run returns its first `min(n, length)` rows, still sorted; every row left out sorts after every row returned; empty exactly when `n <= 0` or the run is empty |
| CatalogStore.CategoriesNeedingDestinationSpec | includes/core/class-database.php:285-299 | `get_categories_needing_destination_id(n)` returns `min(n, unmapped)` unmapped rows in category order; unmapped rows left out sort after those returned; empty exactly when `n <= 0` or every category is mapped |
| CatalogStore.CategoryMappingKeys | includes/core/class-database.php:320-331 | the mapping's source ids are exactly those of the mapped rows |
| CatalogStore.CategoryMappingAt | includes/core/class-database.php:320-331 | a row's source id is in the mapping exactly when it is mapped, and then it maps to the row's destination id |
| CatalogStore.CategoryMappingSpec | includes/core/class-database.php:320-331 | `get_category_mapping` holds one entry per mapped category, from its source id to its destination id, and nothing else |
| CatalogStore.CompletenessByCounts | includes/core/class-database.php:341-364 | `is_sync_complete` holds exactly when there are products, no variable product still needs variations, and no category lacks a destination |
| CatalogStore.Database.constructor | includes/core/class-database.php:21-67 | freshly created tables are empty and valid |
| CatalogStore.Database.ReplaceProduct | includes/core/class-database.php:105-121 | one product `REPLACE`; the category table is untouched |
| CatalogStore.Database.ReplaceCategory | includes/core/class-database.php:254-264 | one category `REPLACE`; the product table is untouched |
| CatalogStore.Database.GetProductsCount | includes/core/class-database.php:70-76 | the product count, which equals the number of distinct source ids |
| CatalogStore.Database.GetLastSyncedProductId | includes/core/class-database.php:78-84 | 0 on an empty table, else the largest source id |
| CatalogStore.Database.InsertProducts | includes/core/class-database.php:86-136 | the loop upserts, in order, every element that has an id and whose statement succeeds; it returns the number of successful writes, at most the batch size |
| CatalogStore.Database.GetProductIdGaps | includes/core/class-database.php:138-152 | distinct ids, total records, and zero duplicates under the unique key |
| CatalogStore.Database.GetVariableProducts | includes/core/class-database.php:154-164 | the variable rows in id order |
| CatalogStore.Database.GetVariableProductsCount | includes/core/class-database.php:166-172 | the number of variable rows |
| CatalogStore.Database.GetCompletedVariableProductsCount | includes/core/class-database.php:174-180 | the number of variable rows with all variations, never more than the variable count |
| CatalogStore.Database.GetVariableProductsNeedingVariations | includes/core/class-database.php:182-196 | the `min(limit, pending)` variable rows still needing variations with the smallest ids, in id order; empty exactly when `limit <= 0` or none is pending |
| CatalogStore.Database.UpdateProductVariations | includes/core/class-database.php:198-215 | on success only the payload of the row keyed `productId` changes; the flags, ids and other rows stay; on failure nothing changes |
| CatalogStore.Database.UpdateProductWithVariations | includes/core/class-database.php:217-235 | on success the row's payload is replaced and its "all variations obtained" flag set; nothing else changes |
| CatalogStore.Database.ClearProducts | includes/core/class-database.php:237-243 | a successful truncate empties the product table and restarts its ids at 1; a failed one changes nothing |
| CatalogStore.Database.InsertCategories | includes/core/class-database.php:246-275 | the loop upserts every category with id and slug whose statement succeeds; it returns the number written |
| CatalogStore.Database.GetCategoriesCount | includes/core/class-database.php:277-283 | the category count, equal to the number of distinct source ids |
| CatalogStore.Database.GetCategoriesNeedingDestinationId | includes/core/class-database.php:285-299 | `min(limit, unmapped)` unmapped categories in category order; every unmapped category left out sorts after them; empty exactly when `limit <= 0` or all are mapped |
| CatalogStore.Database.UpdateCategoryDestinationId | includes/core/class-database.php:301-318 | on success only the destination of the row keyed `sourceId` changes; on failure nothing changes |
| CatalogStore.Database.GetCategoryMapping | includes/core/class-database.php:320-331 | the source-to-destination map of the mapped categories |
| CatalogStore.Database.ClearCategories | includes/core/class-database.php:333-339 | a successful truncate empties the category table; a failed one changes nothing |
| CatalogStore.Database.IsSyncComplete | includes/core/class-database.php:341-364 | true exactly when there are products, every variable product has its variations, and every category is mapped |
| CatalogStore.Database.GetSyncStatus | includes/core/class-database.php:366-381 | the five counts, with completed at most variable, and the completeness verdict |
| SyncService.ResumePage | includes/services/class-sync-service.php:44-52 | a request for page 1 becomes the page after the full pages already stored, `(page-1)*10 <= existing < page*10`; any other request is kept |
| SyncService.HasMoreBound | includes/services/class-sync-service.php:79 | a client that asks for `page + 1` while `has_more` holds requests at most `total - page` further pages and none from the last page on; every page it moves past returned products, and it stops at an empty page before the total |
| SyncService.SyncProductsPage | includes/services/class-sync-service.php:41-91 | a failed fetch returns its message and writes nothing; a successful one upserts the page, returns the page, the totals, the new count, the number inserted and fetched, and `has_more`; categories are untouched |
| SyncService.SuccessCount | includes/services/class-sync-service.php:105-130 | the number of products whose fetch and update succeed, at most the number visited |
| SyncService.SyncedVariationsKeepsFlags | includes/services/class-sync-service.php:93-135 | the variation pass keeps the table valid and the same source ids; it changes neither the variable count nor the completed count, so the completeness verdict stays what it was |
| SyncService.SyncStep | includes/services/class-sync-service.php:105-130 | visiting one more variable product updates exactly its own row |
| SyncService.PartlySyncedValid | includes/services/class-sync-service.php:105-130 | the table stays valid while the pass runs |
| SyncService.SyncFinished | includes/services/class-sync-service.php:105-130 | once every variable product has been visited, the table is the fully synced one |
| SyncService.VisitVariableProduct | includes/services/class-sync-service.php:105-130 | one visit fetches the variations, writes them into the payload when fetch and update succeed, and otherwise changes nothing |
| SyncService.SyncVariations | includes/services/class-sync-service.php:93-135 | every variable product whose fetch and update succeed gets the fetched list under `variations`; nothing else changes; "no variable products" when there are none; otherwise processed plus errors equals the number of variable products |
| SyncService.ClearAllProducts | includes/services/class-sync-service.php:137-145 | truncates the product table only, with the source's success or failure message |
| ProductProcessor.ValidateProductCases | includes/services/class-product-processor.php:21-32 | non-arrays, lists and arrays without an id are rejected, and so are boolean and array ids; integer ids are accepted; a string id is accepted exactly when it is numeric, digit strings included |
| ProductProcessor.ValidateProduct | includes/services/class-product-processor.php:21-32 | a valid product is a string-keyed array whose `id` is set and is an integer or a string |
| ProductProcessor.EmptyIdRejected | includes/services/class-product-processor.php:27 | an empty id is rejected |
| ProductProcessor.LetterIdRejected | includes/services/class-product-processor.php:27 | an id of letters is rejected |
| ProductProcessor.DigitsThenLettersIdRejected | includes/services/class-product-processor.php:27 | `"12abc"` is rejected although `intval` reads 12 from it |
| ProductProcessor.SanitizedSpec | includes/services/class-product-processor.php:34-60 | the output always has `id` (`intval`), `name`, `type` and `sku`, with defaults `''`, `'simple'` and `''`; every other key is on the preserve list with the input's value; a preserve-list key is present exactly when it is set in the input |
| ProductProcessor.SanitizedRequired | includes/services/class-product-processor.php:39-42 | the four required fields and their defaults |
| ProductProcessor.SanitizedPreserved | includes/services/class-product-processor.php:45-57 | a preserve-list key is copied exactly when set, with its value |
| ProductProcessor.SanitizedOthers | includes/services/class-product-processor.php:45-57 | any key besides the four required ones comes from the preserve list |
| ProductProcessor.RequiredNotPreserved | includes/services/class-product-processor.php:39-51 | the required keys are not on the preserve list, so the copy loop never overwrites them |
| ProductProcessor.SanitizedIsValid | includes/services/class-product-processor.php:21-60 | a sanitised product passes validation again |
| ProductProcessor.SanitizeIdempotent | includes/services/class-product-processor.php:34-60 | with a text sanitiser that leaves its own output, `''` and `'simple'` unchanged, sanitising twice equals sanitising once |
| ProductProcessor.RequiredOfSanitized | includes/services/class-product-processor.php:39-42 | under that sanitiser, the required fields survive a second pass |
| ProductProcessor.PreservedOfSanitized | includes/services/class-product-processor.php:45-57 | the preserved fields survive a second pass |
| ProductProcessor.SanitizeProduct | includes/services/class-product-processor.php:34-60 | the loop over the 21 preserve-list fields returns the sanitised product |
| ProductProcessor.ProcessedAppend | includes/services/class-product-processor.php:62-74 | processing two batches one after the other is processing them together, so output order is input order |
| ProductProcessor.ProcessedSingle | includes/services/class-product-processor.php:65-71 | one input yields its sanitised form when valid and nothing when invalid |
| ProductProcessor.ProcessedBound | includes/services/class-product-processor.php:62-74 | the output is never longer than the input, and every output passes validation |
| ProductProcessor.ProcessIdempotent | includes/services/class-product-processor.php:62-74 | under a stable sanitiser, processing a processed batch returns it unchanged |
| ProductProcessor.ProcessedOnceStable | includes/services/class-product-processor.php:65-71 | the same for a single input |
| ProductProcessor.ProcessProducts | includes/services/class-product-processor.php:62-74 | the loop returns the sanitised valid inputs in order |
| ProductProcessor.MergedSpec | includes/services/class-product-processor.php:76-93 | non-array variations return the product unchanged; otherwise only `variations` changes, to the list of sanitised valid variations in order, no longer than the input list |
| ProductProcessor.MergeStoredStable | includes/services/class-product-processor.php:76-93 | under a stable sanitiser, merging a merged product's stored variations into it again changes nothing |
| ProductProcessor.MergeVariations | includes/services/class-product-processor.php:76-93 | the loop returns the merged product |
| ProductProcessor.ExtractedAppend | includes/services/class-product-processor.php:95-111 | extraction keeps category order |
| ProductProcessor.QualifyingSpec | includes/services/class-product-processor.php:101 | the qualifying categories are exactly those with both `id` and `slug` set, in order; all of them when all qualify, none when none does |
| ProductProcessor.ExtractedSpec | includes/services/class-product-processor.php:95-111 | one entry per qualifying category, in order: `id` is the `intval` of its id, `slug` its slug through `sanitize_title`, `name` its name through `sanitize_text_field` or `''` when unset, and nothing else |
| ProductProcessor.NoCategories | includes/services/class-product-processor.php:99 | a product whose `categories` is missing or not an array yields no entries |
| ProductProcessor.ExtractCategories | includes/services/class-product-processor.php:95-111 | the loop returns the extracted entries |
| ProductProcessor.PrepareForImport | includes/services/class-product-processor.php:114-134 | the post is published, of type `product`, and carries the remote id as `_wootowoo_source_id` |
| ProductProcessor.ImportOfSanitized | includes/services/class-product-processor.php:114-134 | for a sanitised product, the source id is the `intval` of the remote id, the title and SKU are strings, and the content, excerpt, prices and weight are the remote values when set, `''` otherwise |
| ProductProcessor.ImportCopies | includes/services/class-product-processor.php:120-128 | the post's content, excerpt, regular and sale price and weight are the product's values when set, `''` otherwise |
| Config.ConfigErrorsSpec | includes/core/class-config.php:28-42 | at most three errors, in the order address, key, secret; "required" exactly when the address is empty; "invalid" exactly when it is non-empty and fails the URL filter, never both; each credential's error exactly when it is empty |
| Config.ConfigErrors | includes/core/class-config.php:28-42 | at most three errors, each one of the four form messages |
| Config.NoErrorsIff | includes/core/class-config.php:28-44 | the list is empty exactly when all three values are non-empty and the address passes the filter |
| Config.AcceptedValuesConfigure | includes/core/class-config.php:44-47 | writing accepted values makes `has_config` hold, and the getters read the values back |
| Config.SaveNotices | includes/core/class-config.php:44-61 | a submitted form shows one to three notices: the success notice exactly when it was accepted, else one per error in form order |
| Config.StatusUrlSpec | includes/core/class-config.php:90 | a trailing slash does not change the test URL, trimming twice is trimming once, an address without a trailing slash is used as it is, and no `/` directly precedes the endpoint path unless the address is empty or only slashes |
| Config.GuardsPrecedeRequest | includes/core/class-config.php:81-88 | an empty value or an invalid address fails before any request: the result does not depend on the network and names the failed guard |
| Config.TestConnection | includes/core/class-config.php:81-110 | the test succeeds only past both guards, and its message is the success message exactly when it succeeds |
| Config.ConnectionSucceedsIff | includes/core/class-config.php:90-110 | past the guards, the test succeeds exactly when the status endpoint answers 200 to the basic-auth request |
| Config.InvalidResponseNamesCode | includes/core/class-config.php:105-109 | any other response code appears in the failure message, and `intval` reads it back |
| Config.AcceptedValuesPassGuards | includes/core/class-config.php:30-42 | saved settings always pass both guards of the connection test |
| Config.Settings.constructor | includes/core/class-config.php:18-20 | the settings start from the given options |
| Config.Settings.HasConfig | includes/core/class-config.php:75-79 | true exactly when address, key and secret are all non-empty under PHP `empty` |
| Config.Settings.HandleConfigSave | includes/core/class-config.php:22-61 | without the submit field or a valid nonce nothing happens and no notice shows; otherwise the sanitised values are checked. With no errors the three options are written, `has_config` then holds and only the success notice shows. With errors nothing is written and one notice per error shows |

## Left out

- The admin pages, the AJAX handlers, the REST client class and the plugin bootstrap. They are rendering and transport wiring and are not part of this model. Remote responses, database outcomes, the nonce verdict and the HTTP round trip are parameters instead.
- `get_initial_product_count`, and the transient deleted by `terminate_sync`: they are an API call and a cache side channel.
- `create_tables` and `dbDelta`; the `created_at` and `updated_at` timestamps; `error_log`. The tables start empty in the constructor.
- `json_encode` and `json_decode` of stored payloads: a payload is stored and read back as the decoded document itself.
- Selected columns: the queries return whole rows rather than only the columns the SQL names.
- PHP floats: the `floor(...)` page number is an integer, and `is_numeric` on a float value is not modelled. `intval` of strings covers sign and digits. Exponent forms and integer overflow are not covered.
- `foreach` over a string-keyed array visits no elements: a map has no order to follow. Only list-shaped arrays are iterated (`PhpValues.Elements`).
- `get_variable_products` has no `ORDER BY` in SQL, so its result is taken in table (id) order.
- `ProductProcessor.SanitizeProduct`: takes the product as an array. The source only calls it on validated products, so PHP string-offset reads on a non-array input are not modelled.
- `SyncService.SyncVariations`: returns the processed and error counts, not the formatted message.
- `Config.Settings.HandleConfigSave`: returns the notices as their message strings instead of echoing the HTML. Whether `update_option` reports a change is not modelled.
- Reads are assumed to succeed. Only writes and truncates have an outcome parameter. In the source a failed `get_var` reads as `(int) null`, which is 0. A failed `get_results` gives an empty result, which `empty()` treats like no rows, so `is_sync_complete` would report true while categories are still unmapped; the model does not capture that case.
- `CatalogStore.Database.GetVariableProductsNeedingVariations` and `CatalogStore.Database.GetCategoriesNeedingDestinationId`: the source's default argument `$limit = 10` is not modelled; callers always pass the limit.
- `SyncService.HasMoreBound`: takes the page total the remote reports as the same on every call, and models the admin screen's loop (ask for `page + 1` while `has_more`) as a function of the pages' product counts.
- No code in the modelled files calls `update_product_with_variations` or `update_category_destination_id`, or uses `get_variable_products_needing_variations`. They are modelled as the database offers them.
