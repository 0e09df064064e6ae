/** The `product` model: its fillable attributes, the `cats` relation back
    to `Category` and its `search` scope. */
module ProductModel {
  import opened Eloquent
  import opened Schema
  import CategoryModel

  /** `$fillable`: the nine attributes mass assignment writes. */
  const Fillable: set<string> :=
    {"name", "image", "images_list", "price", "price_sale", "description", "category_id", "brand_id", "status"}

  /** Mass assignment of a submitted product form: the listed attributes that
      were submitted, with their submitted values, and nothing else. */
  function MassAssign(input: map<string, string>): (attrs: map<string, string>)
    ensures attrs.Keys == input.Keys * Fillable
    ensures forall k :: k in Fillable && k in input ==> k in attrs && attrs[k] == input[k]
  {
    Fill(Fillable, input)
  }

  /** Submitting any attribute outside the nine (`_token`, `id`,
      `created_at`, ...) changes nothing that is written, and assigning
      twice is assigning once. */
  lemma MassAssignDropsOthers(input: map<string, string>, k: string, v: string)
    requires k !in Fillable
    ensures MassAssign(input[k := v]) == MassAssign(input)
    ensures MassAssign(MassAssign(input)) == MassAssign(input)
  {
    FillIgnoresOthers(Fillable, input, k, v);
  }

  /** `cats` (`belongsTo(Category::class, 'category_id')`): the category whose
      id is the product's `category_id`. The relation query carries the
      soft-delete scope, so a trashed or missing category resolves to None. */
  function Cats(categories: map<int, Category>, p: Product): (owner: Option<Row>)
    ensures owner.Some? <==> p.categoryId in categories && !categories[p.categoryId].deleted
    ensures owner.Some? ==> owner.value == (p.categoryId, categories[p.categoryId])
  {
    if p.categoryId in categories && !categories[p.categoryId].deleted
    then Some((p.categoryId, categories[p.categoryId]))
    else None
  }

  /** `cats` and `Category::prods` are the two directions of one foreign key:
      a product is among a live category's `prods` exactly when its `cats`
      is that category. */
  lemma CatsInvertsProds(categories: map<int, Category>, products: map<int, Product>, pid: int, cid: int)
    requires pid in products
    requires cid in categories && !categories[cid].deleted
    ensures pid in CategoryModel.Prods(products, cid) <==> Cats(categories, products[pid]) == Some((cid, categories[cid]))
  {
  }

  /** After a force delete the category's products are left behind: their
      `cats` no longer resolves. */
  lemma ForceDeleteOrphansProducts(categories: map<int, Category>, products: map<int, Product>, pid: int, cid: int)
    requires pid in products && products[pid].categoryId == cid
    ensures Cats(categories - {cid}, products[pid]) == None
  {
  }

  function ProductName(row: ProductRow): string {
    row.1.name
  }

  /** `ScopeSearch`: with a truthy `key`, the products whose name contains it,
      in their original order; otherwise the rows unchanged. */
  function Search(rows: seq<ProductRow>, key: string): (r: seq<ProductRow>)
    ensures !Truthy(key) ==> r == rows
    ensures Truthy(key) ==> forall row :: row in r <==> row in rows && IsSubstring(key, row.1.name)
    ensures IsSubsequence(r, rows)
  {
    SearchByName(rows, ProductName, key)
  }
}
