# Category lifecycle of the admin back office

This project models the category administration of a small Laravel back
office in Dafny. The admin works with two tables, `category` and
`products`. A category is live, soft-deleted (in the trash), or gone for good.
The model covers the controller actions that move a category between these
states, and the two listings that show it. It also covers the model rules the
actions rely on:

- soft deletes set a marker and keep the row;
- mass assignment keeps only the fillable attributes;
- a category's products are found through `category_id`;
- the `search` scope is a name filter.

Files:

- `eloquent.dfy` (module `Eloquent`) spells out the framework behaviour the
  code relies on:
  - PHP truthiness of request values;
  - the `required` rule's notion of blank;
  - mass assignment through `$fillable`;
  - `where name like '%key%'` as substring containment;
  - `orderBy('id', 'DESC')`;
  - `paginate` as a slice of the ordered listing.
- `schema.dfy` (module `Schema`) holds the two records. A table is a map from
  id to record. The soft-delete marker `deleted_at` is the flag `deleted`.
- `category_model.dfy` (module `CategoryModel`) covers `app/Models/Category.php`:
  the fillable `name` and `status`, the `prods` relation and its count, the
  `search` scope, and the two ordered listings.
- `product_model.dfy` (module `ProductModel`) covers `app/Models/product.php`:
  the nine fillable attributes, the `cats` relation and the `search` scope.
- `category_controller.dfy` (module `Controllers`) covers
  `app/Http/Controllers/Admin/CategoryController.php`. The class
  `CategoryController` holds the two tables and the auto-increment counter.
  - `index` and `trushed` are read-only functions. They return one page of
    rows.
  - `store`, `update`, `destroy`, `restore`, `forcedelete` and `DeleteAll` are
    methods that change the category table.
  - Each action returns `ok`, which stands for the `yes`/`no` flash.
  - `DeleteAll` is a loop. Its meaning is the function `BulkDelete`, and the
    lemmas about the bulk delete are stated on that function.

Modelling decisions worth knowing:

- `forcedelete` removes any row that `withTrashed()->find` finds, live or
  trashed. No product count guards it.
- `update` and `destroy` take their category through route model binding.
  That lookup sees only live rows, so a missing or trashed id fails
  (a 404) and changes nothing.
- `prods` names `Product::class`, while the class and its file are
  `product`/`product.php`. The autoloader finds that file only on a
  case-insensitive filesystem or once the class is already loaded. The
  model assumes the relation always resolves.
- `cats` runs through the soft-delete scope. A product whose category is
  trashed therefore resolves to no category.
- `DeleteAll` does not check the result of `Category::find`. An id that does
  not resolve to a live row (missing, trashed, or already deleted earlier in
  the same request) aborts the request at that id. So does a request with
  no `id` list at all: `foreach` over null raises a warning, which the
  framework turns into an exception. The model returns this abort as
  `faulted`, not as a precondition. Rows the loop marked before the
  abort stay marked, because nothing wraps the loop in a transaction.
- A search `key` of `"0"` is falsy in PHP, so it lists everything, like an
  empty key.

## Model

| member | source | states |
|---|---|---|
| `Controllers.PageSize` | app/Http/Controllers/Admin/CategoryController.php:18-20 | the page size is never below 1, and it is `cc` whenever `cc` is truthy (3 otherwise) |
| `Controllers.CategoryController.Index` | app/Http/Controllers/Admin/CategoryController.php:18-22 | a page holds at most `cc` rows when `cc` is truthy and at most 3 otherwise; it lists only live categories whose name contains a truthy key; ids strictly decrease |
| `Controllers.IndexListing` | app/Http/Controllers/Admin/CategoryController.php:22 | before pagination, `index` lists exactly the live categories that pass the search, each once, newest first |
| `Controllers.IndexCoversListing` | app/Http/Controllers/Admin/CategoryController.php:22 | every live category that passes the search is on some page of `index`, whatever the page size |
| `Controllers.CategoryController.IndexCovers` | app/Http/Controllers/Admin/CategoryController.php:18-22 | every live category that passes the search is on some page of `index` |
| `Controllers.CategoryController.Trashed` | app/Http/Controllers/Admin/CategoryController.php:28 | a page holds at most 3 rows, only soft-deleted categories, with ids strictly decreasing |
| `Controllers.TrashedCoversListing` | app/Http/Controllers/Admin/CategoryController.php:28 | every soft-deleted category is on some page of the trash listing, three to a page |
| `Controllers.CategoryController.TrashedCovers` | app/Http/Controllers/Admin/CategoryController.php:28 | every soft-deleted category is on some page of `trushed` |
| `Controllers.CategoryController.Restore` | app/Http/Controllers/Admin/CategoryController.php:34-39 | succeeds if and only if a row with that id exists, deleted or not; on success only that row's deleted flag is cleared; on failure nothing changes |
| `Controllers.ValidateStore` | app/Http/Controllers/Admin/CategoryController.php:60-65 | the input passes if and only if the name is present, not blank and not reported as taken; a missing or blank name is reported as `required`, before uniqueness is checked |
| `Controllers.CategoryController.Store` | app/Http/Controllers/Admin/CategoryController.php:60-73 | succeeds if and only if validation passes; on success adds exactly one row under a fresh auto-increment id, built by `NewCategory`; on failure the table and the counter are unchanged |
| `CategoryModel.NewCategory` | app/Models/Category.php:15 | the inserted row takes its name and status from the input and starts out not deleted |
| `CategoryModel.NewCategoryIgnoresOtherFields` | app/Http/Controllers/Admin/CategoryController.php:67-69 | adding or changing any attribute outside `name`/`status`, `_token` included, does not change the inserted row |
| `Controllers.CategoryController.Update` | app/Http/Controllers/Admin/CategoryController.php:105-112 | succeeds if and only if the id names a live row; only that row changes, and only as `Updated` says; all other rows are unchanged |
| `CategoryModel.Updated` | app/Http/Controllers/Admin/CategoryController.php:107-108 | `name` and `status` take the submitted values where they were submitted; every other field, the deleted flag included, is unchanged |
| `CategoryModel.UpdatedIgnoresOtherFields` | app/Models/Category.php:15 | a submitted attribute outside `name`/`status` has no effect on the updated row |
| `CategoryModel.UpdatedIdempotent` | app/Http/Controllers/Admin/CategoryController.php:107-108 | submitting the same edit twice gives the same row as submitting it once |
| `Controllers.CategoryController.Destroy` | app/Http/Controllers/Admin/CategoryController.php:122-129 | soft-deletes if and only if the row is live and has no products; success only sets that row's deleted flag and removes no row; on failure nothing changes |
| `CategoryModel.Prods` | app/Models/Category.php:17-20 | `prods` is exactly the set of products whose `category_id` is the category's id; this contract is the definition itself, and `ProductCountZeroIff` and `ProductModel.CatsInvertsProds` are what check it against the guard and the inverse relation |
| `CategoryModel.ProductCountZeroIff` | app/Http/Controllers/Admin/CategoryController.php:124 | the delete guard `prods->count() == 0` holds if and only if no product has that `category_id` |
| `CategoryModel.SoftDeleteMovesToTrash` | app/Models/Category.php:11 | after a soft delete the row is in no page of the default listing, and it is in the trash listing |
| `CategoryModel.RestoreReturnsToListing` | app/Http/Controllers/Admin/CategoryController.php:34-36 | after a restore the row is in the default listing and out of the trash listing |
| `CategoryModel.ForceDeleteLeavesNoListing` | app/Http/Controllers/Admin/CategoryController.php:134-136 | after a force delete the row is in neither listing |
| `Controllers.CategoryController.ForceDelete` | app/Http/Controllers/Admin/CategoryController.php:132-140 | succeeds if and only if a row with that id exists, live or trashed, with no product guard; the row is removed and nothing else changes |
| `Controllers.Visit` | app/Http/Controllers/Admin/CategoryController.php:146-151 | one iteration removes no row, does nothing once the loop has aborted, and raises the count by at most one |
| `Controllers.BulkDelete` | app/Http/Controllers/Admin/CategoryController.php:144-152 | the loop over the ids keeps every row's key and counts at most one record per requested id |
| `Controllers.CategoryController.DeleteAll` | app/Http/Controllers/Admin/CategoryController.php:142-158 | with no `id` list the request aborts with nothing changed; otherwise the new table, the count and the abort flag are those of `BulkDelete` over the ids in order; reports success if and only if the loop completes with a positive count |
| `Controllers.BulkOnlySoftDeletes` | app/Http/Controllers/Admin/CategoryController.php:145-152 | aborted or not, the bulk delete removes no row; it only sets deleted flags, and only on requested live categories with no products |
| `Controllers.BulkCountsMarked` | app/Http/Controllers/Admin/CategoryController.php:144-150 | aborted or not, the counter `$a` equals the number of rows the loop soft-deleted |
| `Controllers.BulkDeletesEveryEligible` | app/Http/Controllers/Admin/CategoryController.php:144-152 | when the loop completes, the soft-deleted rows are exactly the requested ids with no products, and the count is their number |
| `Controllers.BulkNoFaultOnDistinctLiveIds` | app/Http/Controllers/Admin/CategoryController.php:146-147 | distinct ids that all name live rows never abort the loop |
| `Controllers.BulkFaultsOnMissingId` | app/Http/Controllers/Admin/CategoryController.php:146-147 | a requested id that is missing or trashed before the request aborts it, because `find` returns null and `prods` is read from it |
| `Controllers.BulkFaultsOnRepeatedId` | app/Http/Controllers/Admin/CategoryController.php:145-149 | an id requested twice whose category has no products aborts the request at its second occurrence, since the first one soft-deleted the row |
| `Controllers.FaultIsFinal` | app/Http/Controllers/Admin/CategoryController.php:145-147 | once the loop aborts, the remaining ids are never visited |
| `Controllers.MixedBulkDelete` | app/Http/Controllers/Admin/CategoryController.php:144-157 | A (no products) and B (two products): deleting [A, B] soft-deletes A only and counts 1 |
| `CategoryModel.Search` | app/Models/Category.php:21-25 | a falsy key returns the rows unchanged; a truthy key keeps exactly the rows whose name contains it; the result is a subsequence of the input |
| `CategoryModel.SearchKeepsOrder` | app/Http/Controllers/Admin/CategoryController.php:22 | searching a newest-first listing leaves it newest-first |
| `CategoryModel.Listing` | app/Http/Controllers/Admin/CategoryController.php:28 | the ordered listing under the soft-delete scope or `onlyTrashed()` holds exactly the rows with that deleted flag, once each, with strictly decreasing ids |
| `Eloquent.IdsDescending` | app/Http/Controllers/Admin/CategoryController.php:22 | `orderBy('id', 'DESC')` yields every id once, strictly decreasing |
| `Eloquent.Paginate` | app/Http/Controllers/Admin/CategoryController.php:22 | a page is the run of at most `perPage` rows that follows the rows of the earlier pages |
| `Eloquent.PageOfPosition` | app/Http/Controllers/Admin/CategoryController.php:28 | every row of a listing appears on the page, and at the place, that `PagePosition` computes |
| `ProductModel.MassAssign` | app/Models/product.php:12 | mass assignment keeps exactly the submitted attributes among the nine listed ones, with their submitted values |
| `ProductModel.MassAssignDropsOthers` | app/Models/product.php:12 | an attribute outside the nine changes nothing, and assigning twice is the same as assigning once |
| `ProductModel.Cats` | app/Models/product.php:14-16 | `cats` resolves to the category whose id is the product's `category_id` if that row exists and is live, and to none otherwise; this contract is the definition itself, and `CatsInvertsProds` is what checks it against `prods` |
| `ProductModel.CatsInvertsProds` | app/Models/product.php:14-16 | for a live category, a product is in its `prods` if and only if the product's `cats` is that category |
| `ProductModel.ForceDeleteOrphansProducts` | app/Http/Controllers/Admin/CategoryController.php:134-136 | force-deleting a category that still has products leaves those products behind, with a `cats` that resolves to nothing |
| `ProductModel.Search` | app/Models/product.php:17-22 | a falsy key is the identity; a truthy key keeps exactly the products whose name contains it; the result is a subsequence of the input |

## Left out

- The Blade views are left out. They are HTML rendering, jQuery modal and
  iframe handlers, and check-all checkboxes.
- The route table and the admin menu configuration are left out. They
  declare routes and menu entries and hold no logic.
- The product migration is left out. It only informed the fields of
  `Product`.
- `AdminController` is left out. Login and logout delegate to the
  framework's authentication and session.
- `create`, `edit` and `show` are left out. They only render a view or are
  empty.
- Redirect targets, flash message texts, validation message texts and the
  rendered pagination links are left out. Each action returns a boolean, and
  pagination returns only the page's rows, without a total.
- The uniqueness check `unique:categories` is a parameter. It names a table
  other than the model's `category`, so `Store` takes the set of names the
  check reports as taken.
- SQL `LIKE` is plain substring containment in the model. Case-insensitive
  collation is left out, and so are `%` and `_` inside the key acting as
  wildcards.
- `Controllers.CategoryController.Index`: `cc` is a natural number, 0 when it
  is absent or empty. A non-numeric or negative `cc` string, which PHP and the
  paginator would treat differently, is not modelled. Neither is a truthy
  string whose value is zero, such as `"00"` or `"0.0"`: PHP passes it to
  `paginate`, which then divides by a page size of 0, while the model reads
  it as 0 and uses 3.
- The request middleware that trims strings and turns empty strings into
  null is left out. Names are stored as submitted. Blank-ness follows the
  `required` rule: the string is empty once PHP's default trim characters
  are removed.
- Database-level failures are left out: a duplicate name or a null name
  hitting a column constraint on `update`, and the unreachable `no` branches
  of `store` and `update`. `store` is exposed in the same way:
  `unique:categories` looks at a different table from `category`, so a name
  that passes validation can still fail on insert if the `category` table
  constrains names. The `category` table's schema is not part of this
  model.
- Timestamps are left out: `created_at`, `updated_at` and the value of
  `deleted_at`. Only whether a row is deleted matters.
- A `DeleteAll` request without an `id` list is `None`. It aborts like a
  missing id, and the model records no error page for it.
- The abort of `DeleteAll` carries no error page. The model only records
  that the loop stopped, and where.
- Product create, update and delete actions are left out. `ProductController`
  is not part of this model, so the products table is never changed here.
