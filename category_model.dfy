/** The `Category` model: soft deletes, the fillable attributes, the `prods`
    relation and the `search` scope, as functions over the two tables. */
module CategoryModel {
  import opened Eloquent
  import opened Schema

  /** `$fillable`: the only attributes mass assignment writes. */
  const Fillable: set<string> := {"name", "status"}

  /** The row `Category::create($input)` inserts: it is built from the
      fillable attributes alone and starts out not deleted. */
  function NewCategory(input: map<string, string>): (c: Category)
    requires "name" in input
    ensures c.name == input["name"] && !c.deleted
    ensures c.status == (if "status" in input then Some(input["status"]) else None)
  {
    var attrs := Fill(Fillable, input);
    Category(attrs["name"], if "status" in attrs then Some(attrs["status"]) else None, false)
  }

  /** Adding or changing any attribute outside `$fillable` (such as `_token`,
      `id` or `deleted_at`) leaves the inserted row as it was. */
  lemma NewCategoryIgnoresOtherFields(input: map<string, string>, k: string, v: string)
    requires "name" in input
    requires k !in Fillable
    ensures NewCategory(input[k := v]) == NewCategory(input)
  {
    FillIgnoresOthers(Fillable, input, k, v);
  }

  /** `$category->update($input)`: `name` and `status` take the submitted
      values where the input has them; everything else stays, the deleted
      marker included. */
  function Updated(c: Category, input: map<string, string>): (u: Category)
    ensures u.deleted == c.deleted
    ensures u.name == (if "name" in input then input["name"] else c.name)
    ensures u.status == (if "status" in input then Some(input["status"]) else c.status)
  {
    var attrs := Fill(Fillable, input);
    c.(name := if "name" in attrs then attrs["name"] else c.name,
       status := if "status" in attrs then Some(attrs["status"]) else c.status)
  }

  /** Submitting the same form twice changes nothing the second time. */
  lemma UpdatedIdempotent(c: Category, input: map<string, string>)
    ensures Updated(Updated(c, input), input) == Updated(c, input)
  {
  }

  /** Attributes outside `$fillable` never reach the row. */
  lemma UpdatedIgnoresOtherFields(c: Category, input: map<string, string>, k: string, v: string)
    requires k !in Fillable
    ensures Updated(c, input[k := v]) == Updated(c, input)
  {
    FillIgnoresOthers(Fillable, input, k, v);
  }

  /** `prods`: the products whose `category_id` is this category's id. */
  function Prods(products: map<int, Product>, id: int): (ps: set<int>)
    ensures forall p :: p in ps <==> p in products && products[p].categoryId == id
  {
    set p | p in products && products[p].categoryId == id
  }

  /** `$category->prods->count()`, the number the delete guards test. */
  function ProductCount(products: map<int, Product>, id: int): nat {
    |Prods(products, id)|
  }

  /** The delete guard passes exactly when no product refers to the category. */
  lemma ProductCountZeroIff(products: map<int, Product>, id: int)
    ensures ProductCount(products, id) == 0 <==> forall p :: p in products ==> products[p].categoryId != id
  {
    if forall p :: p in products ==> products[p].categoryId != id {
      assert Prods(products, id) == {};
    }
  }

  function CategoryName(row: Row): string {
    row.1.name
  }

  /** `ScopeSearch`: with a truthy `key`, the rows whose name contains it,
      in their original order; otherwise the rows unchanged. */
  function Search(rows: seq<Row>, key: string): (r: seq<Row>)
    ensures !Truthy(key) ==> r == rows
    ensures Truthy(key) ==> forall row :: row in r <==> row in rows && IsSubstring(key, row.1.name)
    ensures IsSubsequence(r, rows)
  {
    SearchByName(rows, CategoryName, key)
  }

  /** Searching keeps a newest-first listing newest-first. */
  lemma SearchKeepsOrder(rows: seq<Row>, key: string)
    requires DescendingBy(rows, RowId)
    ensures DescendingBy(Search(rows, key), RowId)
  {
    SubsequenceKeepsDescending(Search(rows, key), rows, RowId);
  }

  /** `Category::orderBy('id', 'DESC')` under the soft-delete scope
      (`trashed` false) or under `onlyTrashed()` (`trashed` true): every row
      with that deleted marker, once, newest first. */
  function Listing(categories: map<int, Category>, trashed: bool): (rows: seq<Row>)
    ensures forall row :: row in rows <==> row.0 in categories && categories[row.0] == row.1 && row.1.deleted == trashed
    ensures DescendingBy(rows, RowId)
  {
    var wanted := set k | k in categories && categories[k].deleted == trashed;
    var ids := IdsDescending(wanted);
    assert forall i :: 0 <= i < |ids| ==> ids[i] in wanted;
    var rows := RowsOf(ids, categories);
    forall row: Row
      ensures row in rows <==> row.0 in categories && categories[row.0] == row.1 && row.1.deleted == trashed
    {
      RowsOfMembers(ids, categories, row);
    }
    rows
  }

  /** The rows of `categories` for the given ids, in the order of `ids`. */
  function RowsOf(ids: seq<int>, categories: map<int, Category>): (rows: seq<Row>)
    requires forall i :: 0 <= i < |ids| ==> ids[i] in categories
    ensures |rows| == |ids|
    ensures forall i :: 0 <= i < |ids| ==> rows[i] == (ids[i], categories[ids[i]])
  {
    if ids == [] then [] else [(ids[0], categories[ids[0]])] + RowsOf(ids[1..], categories)
  }

  lemma RowsOfMembers(ids: seq<int>, categories: map<int, Category>, row: Row)
    requires forall i :: 0 <= i < |ids| ==> ids[i] in categories
    ensures row in RowsOf(ids, categories) <==> row.0 in ids && categories[row.0] == row.1
  {
    var rows := RowsOf(ids, categories);
    if row in rows {
      var i :| 0 <= i < |rows| && rows[i] == row;
      assert ids[i] == row.0;
    }
    if row.0 in ids && categories[row.0] == row.1 {
      var i :| 0 <= i < |ids| && ids[i] == row.0;
      assert rows[i] == row;
    }
  }

  /** Soft delete moves a row out of the default listing and into the trash. */
  lemma SoftDeleteMovesToTrash(categories: map<int, Category>, id: int)
    requires id in categories && !categories[id].deleted
    ensures var after := categories[id := categories[id].(deleted := true)];
            && (forall row :: row in Listing(after, false) ==> row.0 != id)
            && (id, after[id]) in Listing(after, true)
  {
  }

  /** Restore moves a row back into the default listing, out of the trash. */
  lemma RestoreReturnsToListing(categories: map<int, Category>, id: int)
    requires id in categories
    ensures var after := categories[id := categories[id].(deleted := false)];
            && (id, after[id]) in Listing(after, false)
            && (forall row :: row in Listing(after, true) ==> row.0 != id)
  {
  }

  /** A force-deleted row is in neither listing. */
  lemma ForceDeleteLeavesNoListing(categories: map<int, Category>, id: int, trashed: bool)
    ensures forall row :: row in Listing(categories - {id}, trashed) ==> row.0 != id
  {
  }
}
