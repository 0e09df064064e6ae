/** The two tables the admin back office works on. A table is a map from
    primary key to record; a listing is a sequence of (id, record) rows. */
module Schema {
  import opened Eloquent

  /** A row of `category`. `deleted` stands for a non-null `deleted_at`:
      soft delete marks the row and keeps it. `status` holds the submitted
      form value ("0" hidden, "1" visible), None when it was never set. */
  datatype Category = Category(name: string, status: Option<string>, deleted: bool)

  /** A row of `products`; `category_id` is the foreign key into `category`. */
  datatype Product = Product(
    name: string,
    image: string,
    imagesList: Option<string>,
    price: int,
    priceSale: Option<int>,
    description: Option<string>,
    categoryId: int,
    brandId: Option<int>,
    status: int)

  type Row = (int, Category)

  type ProductRow = (int, Product)

  function RowId(row: Row): int {
    row.0
  }
}
