/** The admin `CategoryController`: listing, trash listing, create, update,
    soft delete, restore, force delete and bulk delete, as operations on the
    `category` table next to a read-only `products` table. Each operation
    reports success or failure where the controller flashes `yes` or `no`. */
module Controllers {
  import opened Eloquent
  import opened Schema
  import opened CategoryModel

  /** Page size of `index`: the `cc` request value when it is truthy, else 3.
      `cc` is the request value read as a number, 0 when absent or empty. */
  function PageSize(cc: nat): (n: nat)
    ensures n >= 1
    ensures cc != 0 ==> n == cc
    ensures cc == 0 ==> n == 3
  {
    if cc != 0 then cc else 3
  }

  /** Page size of `trushed`. */
  const TrashPageSize: nat := 3

  /** What `index` lists before pagination: the live categories, newest
      first, filtered by the `search` scope. */
  function IndexListing(categories: map<int, Category>, key: string): (rows: seq<Row>)
    ensures forall row :: row in rows <==>
      && row.0 in categories && categories[row.0] == row.1 && !row.1.deleted
      && (Truthy(key) ==> IsSubstring(key, row.1.name))
    ensures DescendingBy(rows, RowId)
  {
    var all := Listing(categories, false);
    SearchKeepsOrder(all, key);
    Search(all, key)
  }

  /** Every live category that matches the search shows up on some page of
      `index`, whatever the page size. */
  lemma IndexCoversListing(categories: map<int, Category>, cc: nat, key: string, id: int)
    requires id in categories && !categories[id].deleted
    requires Truthy(key) ==> IsSubstring(key, categories[id].name)
    ensures exists page :: (id, categories[id]) in Paginate(IndexListing(categories, key), PageSize(cc), page)
  {
    var rows := IndexListing(categories, key);
    var row := (id, categories[id]);
    assert row in rows;
    var i :| 0 <= i < |rows| && rows[i] == row;
    var n := PageSize(cc);
    PageOfPosition(rows, n, i);
    var pos := PagePosition(i, n);
    assert Paginate(rows, n, pos.0)[pos.1] == row;
  }

  /** Every soft-deleted category shows up on some page of `trushed`. */
  lemma TrashedCoversListing(categories: map<int, Category>, id: int)
    requires id in categories && categories[id].deleted
    ensures exists page :: (id, categories[id]) in Paginate(Listing(categories, true), TrashPageSize, page)
  {
    var rows := Listing(categories, true);
    var row := (id, categories[id]);
    assert row in rows;
    var i :| 0 <= i < |rows| && rows[i] == row;
    PageOfPosition(rows, TrashPageSize, i);
    var pos := PagePosition(i, TrashPageSize);
    assert Paginate(rows, TrashPageSize, pos.0)[pos.1] == row;
  }

  datatype StoreError = NameRequired | NameTaken

  /** The `store` validation (`name` => `required|unique`): the name must be
      submitted and not blank, and must not be one the uniqueness check
      reports as taken. `required` is checked first; a blank name is not
      looked up. */
  function ValidateStore(input: map<string, string>, takenNames: set<string>): (e: Option<StoreError>)
    ensures e == None <==> "name" in input && !IsBlank(input["name"]) && input["name"] !in takenNames
    ensures e == Some(NameRequired) <==> "name" !in input || IsBlank(input["name"])
  {
    if "name" !in input || IsBlank(input["name"]) then Some(NameRequired)
    else if input["name"] in takenNames then Some(NameTaken)
    else None
  }

  /** The state `DeleteAll` leaves: the table, the counter `$a`, and whether
      the loop hit an id that `Category::find` could not resolve, which
      aborts the request at that point. */
  datatype BulkResult = BulkResult(categories: map<int, Category>, count: nat, faulted: bool)

  /** One iteration of the `DeleteAll` loop. */
  function Visit(s: BulkResult, products: map<int, Product>, id: int): (r: BulkResult)
    ensures r.categories.Keys == s.categories.Keys
    ensures s.faulted ==> r == s
    ensures r.count == s.count || (r.count == s.count + 1 && !r.faulted)
  {
    if s.faulted then s
    else if id !in s.categories || s.categories[id].deleted then s.(faulted := true)
    else if ProductCount(products, id) == 0 then
      BulkResult(s.categories[id := s.categories[id].(deleted := true)], s.count + 1, false)
    else s
  }

  /** The `DeleteAll` loop run over `ids` in order. */
  function BulkDelete(categories: map<int, Category>, products: map<int, Product>, ids: seq<int>): (r: BulkResult)
    ensures r.categories.Keys == categories.Keys
    ensures r.count <= |ids|
    decreases |ids|
  {
    if ids == [] then BulkResult(categories, 0, false)
    else Visit(BulkDelete(categories, products, ids[..|ids| - 1]), products, ids[|ids| - 1])
  }

  /** The rows that were live in `before` and are soft-deleted in `after`. */
  function NewlyDeleted(before: map<int, Category>, after: map<int, Category>): set<int> {
    set k | k in before && k in after && !before[k].deleted && after[k].deleted
  }

  /** Whatever happens, `DeleteAll` removes no row and only sets deleted
      markers, only on requested live categories without products. This
      holds even when the loop aborts: what was marked before the fault
      stays marked. */
  lemma {:induction false} BulkOnlySoftDeletes(categories: map<int, Category>, products: map<int, Product>, ids: seq<int>)
    ensures var r := BulkDelete(categories, products, ids);
      && r.categories.Keys == categories.Keys
      && (forall k :: k in categories ==>
            || r.categories[k] == categories[k]
            || (&& r.categories[k] == categories[k].(deleted := true)
                && !categories[k].deleted && k in ids && ProductCount(products, k) == 0))
    decreases |ids|
  {
    if ids != [] {
      var pre := ids[..|ids| - 1];
      BulkOnlySoftDeletes(categories, products, pre);
      assert forall k :: k in pre ==> k in ids;
    }
  }

  /** `$a` counts exactly the rows the loop marked, aborted or not. */
  lemma {:induction false} BulkCountsMarked(categories: map<int, Category>, products: map<int, Product>, ids: seq<int>)
    ensures var r := BulkDelete(categories, products, ids);
      r.count == |NewlyDeleted(categories, r.categories)|
    decreases |ids|
  {
    if ids == [] {
      assert NewlyDeleted(categories, categories) == {};
    } else {
      var pre := ids[..|ids| - 1];
      var id := ids[|ids| - 1];
      BulkCountsMarked(categories, products, pre);
      BulkOnlySoftDeletes(categories, products, pre);
      var s := BulkDelete(categories, products, pre);
      if !s.faulted && id in s.categories && !s.categories[id].deleted && ProductCount(products, id) == 0 {
        NewlyDeletedStep(categories, s.categories, id);
      }
    }
  }

  /** Marking one more live row adds exactly that row to `NewlyDeleted`. */
  lemma NewlyDeletedStep(before: map<int, Category>, mid: map<int, Category>, id: int)
    requires mid.Keys == before.Keys
    requires id in mid && !mid[id].deleted
    requires forall k :: k in before ==> mid[k] == before[k] || mid[k] == before[k].(deleted := true)
    ensures id !in NewlyDeleted(before, mid)
    ensures NewlyDeleted(before, mid[id := mid[id].(deleted := true)]) == NewlyDeleted(before, mid) + {id}
  {
    assert before[id] == mid[id];
  }

  /** The requested ids whose category has no products. */
  function Eligible(products: map<int, Product>, ids: seq<int>): set<int> {
    set k | k in ids && ProductCount(products, k) == 0
  }

  lemma EligibleStep(products: map<int, Product>, ids: seq<int>)
    requires ids != []
    ensures var id := ids[|ids| - 1];
      Eligible(products, ids)
        == Eligible(products, ids[..|ids| - 1]) + (if ProductCount(products, id) == 0 then {id} else {})
  {
    var pre := ids[..|ids| - 1];
    assert ids == pre + [ids[|ids| - 1]];
    assert forall k :: k in ids <==> k in pre || k == ids[|ids| - 1];
  }

  /** When the loop runs to the end, the rows it marks are exactly the
      requested ids with no products, and `$a` is their number. */
  lemma {:induction false} BulkDeletesEveryEligible(categories: map<int, Category>, products: map<int, Product>, ids: seq<int>)
    ensures var r := BulkDelete(categories, products, ids);
      !r.faulted ==>
        && NewlyDeleted(categories, r.categories) == Eligible(products, ids)
        && r.count == |Eligible(products, ids)|
    decreases |ids|
  {
    var r := BulkDelete(categories, products, ids);
    BulkCountsMarked(categories, products, ids);
    if ids == [] {
      assert NewlyDeleted(categories, r.categories) == {};
    } else if !r.faulted {
      var pre := ids[..|ids| - 1];
      var id := ids[|ids| - 1];
      BulkDeletesEveryEligible(categories, products, pre);
      BulkOnlySoftDeletes(categories, products, pre);
      EligibleStep(products, ids);
      var s := BulkDelete(categories, products, pre);
      assert !s.faulted && id in s.categories && !s.categories[id].deleted;
      if ProductCount(products, id) == 0 {
        NewlyDeletedStep(categories, s.categories, id);
      }
    }
  }

  /** The loop never aborts when the ids are distinct and name live rows,
      the condition under which `Category::find` never comes back empty. */
  lemma {:induction false} BulkNoFaultOnDistinctLiveIds(categories: map<int, Category>, products: map<int, Product>, ids: seq<int>)
    requires forall i, j :: 0 <= i < j < |ids| ==> ids[i] != ids[j]
    requires forall i :: 0 <= i < |ids| ==> ids[i] in categories && !categories[ids[i]].deleted
    ensures !BulkDelete(categories, products, ids).faulted
    decreases |ids|
  {
    if ids != [] {
      var pre := ids[..|ids| - 1];
      var id := ids[|ids| - 1];
      assert forall i :: 0 <= i < |pre| ==> pre[i] == ids[i];
      BulkNoFaultOnDistinctLiveIds(categories, products, pre);
      BulkOnlySoftDeletes(categories, products, pre);
      assert id !in pre;
    }
  }

  /** An id with no live row aborts the loop: `find` returns null and the
      product count is read from it. The row may be missing or trashed
      before the request. */
  lemma {:induction false} BulkFaultsOnMissingId(categories: map<int, Category>, products: map<int, Product>, ids: seq<int>, i: int)
    requires 0 <= i < |ids| && (ids[i] !in categories || categories[ids[i]].deleted)
    ensures BulkDelete(categories, products, ids).faulted
    decreases |ids|
  {
    var pre := ids[..|ids| - 1];
    BulkOnlySoftDeletes(categories, products, pre);
    if i < |ids| - 1 {
      assert pre[i] == ids[i];
      BulkFaultsOnMissingId(categories, products, pre, i);
    }
  }

  /** An id requested twice whose category has no products aborts the loop
      at its second occurrence: the first one soft-deleted the row, so
      `find` no longer sees it. */
  lemma BulkFaultsOnRepeatedId(categories: map<int, Category>, products: map<int, Product>, ids: seq<int>, i: int, j: int)
    requires 0 <= i < j < |ids| && ids[i] == ids[j]
    requires ProductCount(products, ids[i]) == 0
    ensures BulkDelete(categories, products, ids).faulted
  {
    var pre := ids[..j];
    var s := BulkDelete(categories, products, pre);
    if !s.faulted {
      BulkDeletesEveryEligible(categories, products, pre);
      assert pre[i] == ids[i];
      assert ids[i] in Eligible(products, pre);
      assert ids[..j + 1][..j] == pre;
      assert BulkDelete(categories, products, ids[..j + 1]).faulted;
      FaultIsFinal(categories, products, ids, j + 1);
    } else {
      FaultIsFinal(categories, products, ids, j);
    }
  }

  /** Once the loop has aborted, the remaining ids are never visited. */
  lemma {:induction false} FaultIsFinal(categories: map<int, Category>, products: map<int, Product>, ids: seq<int>, j: int)
    requires 0 <= j <= |ids|
    requires BulkDelete(categories, products, ids[..j]).faulted
    ensures BulkDelete(categories, products, ids) == BulkDelete(categories, products, ids[..j])
    decreases |ids| - j
  {
    if j < |ids| {
      var pre := ids[..|ids| - 1];
      assert pre[..j] == ids[..j];
      FaultIsFinal(categories, products, pre, j);
    } else {
      assert ids[..j] == ids;
    }
  }

  /** Categories A (no products) and B (two products): deleting [A, B]
      marks A only and counts one record. */
  lemma MixedBulkDelete()
    ensures var a := Category("A", Some("1"), false);
            var b := Category("B", Some("1"), false);
            var cats := map[1 := a, 2 := b];
            var shoe := Product("shoe", "shoe.png", None, 100, Some(0), None, 2, None, 1);
            var prods := map[10 := shoe, 11 := shoe.(name := "boot")];
            BulkDelete(cats, prods, [1, 2]) == BulkResult(cats[1 := a.(deleted := true)], 1, false)
  {
    var a := Category("A", Some("1"), false);
    var b := Category("B", Some("1"), false);
    var shoe := Product("shoe", "shoe.png", None, 100, Some(0), None, 2, None, 1);
    var prods := map[10 := shoe, 11 := shoe.(name := "boot")];
    assert Prods(prods, 1) == {};
    assert 10 in Prods(prods, 2);
    assert [1, 2][..1] == [1];
    assert [1][..0] == [];
  }

  /** The controller together with the tables it reads and writes. `nextId`
      is the table's auto-increment counter. */
  class CategoryController {
    var categories: map<int, Category>
    var products: map<int, Product>
    var nextId: int

    ghost predicate Valid()
      reads this
    {
      forall k :: k in categories ==> k < nextId
    }

    constructor (categories: map<int, Category>, products: map<int, Product>, nextId: int)
      requires forall k :: k in categories ==> k < nextId
      ensures Valid()
      ensures this.categories == categories && this.products == products && this.nextId == nextId
    {
      this.categories := categories;
      this.products := products;
      this.nextId := nextId;
    }

    /** `index`: page `page` of the live categories, newest first, filtered
        by `key`, `PageSize(cc)` rows to a page. */
    function Index(cc: nat, key: string, page: int): (r: seq<Row>)
      reads this
      ensures |r| <= PageSize(cc)
      ensures DescendingBy(r, RowId)
      ensures forall row :: row in r ==>
        && row.0 in categories && categories[row.0] == row.1 && !row.1.deleted
        && (Truthy(key) ==> IsSubstring(key, row.1.name))
    {
      var all := IndexListing(categories, key);
      var r := Paginate(all, PageSize(cc), page);
      PageKeepsDescending(all, PageSize(cc), page, RowId);
      PageMembers(all, PageSize(cc), page);
      r
    }

    /** `trushed`: page `page` of the soft-deleted categories, newest first,
        three to a page. */
    function Trashed(page: int): (r: seq<Row>)
      reads this
      ensures |r| <= TrashPageSize
      ensures DescendingBy(r, RowId)
      ensures forall row :: row in r ==> row.0 in categories && categories[row.0] == row.1 && row.1.deleted
    {
      var all := Listing(categories, true);
      var r := Paginate(all, TrashPageSize, page);
      PageKeepsDescending(all, TrashPageSize, page, RowId);
      PageMembers(all, TrashPageSize, page);
      r
    }

    /** Every live category that matches the search is on some page of
        `index`. */
    lemma IndexCovers(cc: nat, key: string, id: int)
      requires id in categories && !categories[id].deleted
      requires Truthy(key) ==> IsSubstring(key, categories[id].name)
      ensures exists page :: (id, categories[id]) in Index(cc, key, page)
    {
      IndexCoversListing(categories, cc, key, id);
      var page :| (id, categories[id]) in Paginate(IndexListing(categories, key), PageSize(cc), page);
      assert Index(cc, key, page) == Paginate(IndexListing(categories, key), PageSize(cc), page);
    }

    /** Every soft-deleted category is on some page of `trushed`. */
    lemma TrashedCovers(id: int)
      requires id in categories && categories[id].deleted
      ensures exists page :: (id, categories[id]) in Trashed(page)
    {
      TrashedCoversListing(categories, id);
      var page :| (id, categories[id]) in Paginate(Listing(categories, true), TrashPageSize, page);
      assert Trashed(page) == Paginate(Listing(categories, true), TrashPageSize, page);
    }

    /** `restore($id)`: `withTrashed()->find` sees live and trashed rows
        alike; a found row has its deleted marker cleared. */
    method Restore(id: int) returns (ok: bool)
      requires Valid()
      modifies this
      ensures Valid()
      ensures ok <==> id in old(categories)
      ensures categories == if ok then old(categories)[id := old(categories)[id].(deleted := false)] else old(categories)
      ensures products == old(products) && nextId == old(nextId)
    {
      ok := id in categories;
      if ok {
        categories := categories[id := categories[id].(deleted := false)];
      }
    }

    /** `store`: validate, drop `_token`, then `Category::create` with the
        fillable attributes under the next auto-increment id. */
    method Store(input: map<string, string>, takenNames: set<string>) returns (ok: bool, error: Option<StoreError>)
      requires Valid()
      modifies this
      ensures Valid()
      ensures error == ValidateStore(input, takenNames)
      ensures ok <==> error == None
      ensures ok ==> && "name" in input
                     && old(nextId) !in old(categories)
                     && categories == old(categories)[old(nextId) := NewCategory(input)]
                     && nextId == old(nextId) + 1
      ensures !ok ==> categories == old(categories) && nextId == old(nextId)
      ensures products == old(products)
    {
      error := ValidateStore(input, takenNames);
      ok := error == None;
      if ok {
        var attrs := input - {"_token"};
        NewCategoryIgnoresOtherFields(attrs, "_token", if "_token" in input then input["_token"] else "");
        if "_token" in input {
          assert attrs["_token" := input["_token"]] == input;
        }
        categories := categories[nextId := NewCategory(attrs)];
        nextId := nextId + 1;
      }
    }

    /** `update`: route model binding finds only live rows (a missing or
        trashed id is a 404); the found row takes `only('name', 'status')`. */
    method Update(id: int, input: map<string, string>) returns (ok: bool)
      requires Valid()
      modifies this
      ensures Valid()
      ensures ok <==> id in old(categories) && !old(categories)[id].deleted
      ensures categories == if ok then old(categories)[id := Updated(old(categories)[id], input)] else old(categories)
      ensures products == old(products) && nextId == old(nextId)
    {
      ok := id in categories && !categories[id].deleted;
      if ok {
        var data := map k | k in input && k in {"name", "status"} :: input[k];
        assert Updated(categories[id], data) == Updated(categories[id], input);
        categories := categories[id := Updated(categories[id], data)];
      }
    }

    /** `destroy`: a live category (route model binding) is soft-deleted when
        no product refers to it; otherwise nothing changes. */
    method Destroy(id: int) returns (ok: bool)
      requires Valid()
      modifies this
      ensures Valid()
      ensures ok <==> id in old(categories) && !old(categories)[id].deleted && ProductCount(products, id) == 0
      ensures categories == if ok then old(categories)[id := old(categories)[id].(deleted := true)] else old(categories)
      ensures products == old(products) && nextId == old(nextId)
    {
      ok := id in categories && !categories[id].deleted && ProductCount(products, id) == 0;
      if ok {
        categories := categories[id := categories[id].(deleted := true)];
      }
    }

    /** `forcedelete($id)`: removes the row, trashed or not, with no product
        guard; an id with no row reports failure. */
    method ForceDelete(id: int) returns (ok: bool)
      requires Valid()
      modifies this
      ensures Valid()
      ensures ok <==> id in old(categories)
      ensures categories == old(categories) - {id}
      ensures products == old(products) && nextId == old(nextId)
    {
      ok := id in categories;
      if ok {
        categories := categories - {id};
      }
    }

    /** `DeleteAll`: visit the ids in order, soft-delete each one without
        products and count it in `count`. An id that does not resolve to a
        live row aborts the request (`faulted`), keeping what was already
        deleted. Success is reported when the loop completes with a
        positive count. A request with no `id` list (`None`) has nothing to
        iterate over and aborts before touching any row. */
    method DeleteAll(request: Option<seq<int>>) returns (ok: bool, count: nat, faulted: bool)
      requires Valid()
      modifies this
      ensures Valid()
      ensures request.None? ==> faulted && count == 0 && categories == old(categories)
      ensures request.Some? ==> BulkDelete(old(categories), products, request.value) == BulkResult(categories, count, faulted)
      ensures ok <==> !faulted && count > 0
      ensures products == old(products) && nextId == old(nextId)
    {
      count, faulted := 0, false;
      if request.None? {
        faulted, ok := true, false;
        return;
      }
      var ids := request.value;
      var i := 0;
      while i < |ids|
        invariant 0 <= i <= |ids|
        invariant products == old(products) && nextId == old(nextId)
        invariant categories.Keys == old(categories).Keys
        invariant BulkDelete(old(categories), products, ids[..i]) == BulkResult(categories, count, false)
      {
        var id := ids[i];
        assert ids[..i + 1][..i] == ids[..i];
        if id !in categories || categories[id].deleted {
          faulted := true;
          FaultIsFinal(old(categories), products, ids, i + 1);
          ok := false;
          return;
        }
        if ProductCount(products, id) == 0 {
          categories := categories[id := categories[id].(deleted := true)];
          count := count + 1;
        }
        i := i + 1;
      }
      assert ids[..i] == ids;
      ok := count > 0;
    }
  }
}
