/** Values shared by the two scripts: rows of the CSV extract, product records
    as the catalog query returns them, and the possible answers of a query. */
module Catalog {

  datatype Option<T> = None | Some(value: T)

  /** A catalog-assigned product id (a GraphQL global id string). */
  type Id = string

  /** One product node of a "find products by SKU" answer. The query fields
      that play no part in any decision (updatedAt, variant ids, price,
      inventory) are not kept. `publishedAt` is an already-parsed timestamp;
      an unpublished product has 0 (the epoch), as `new Date(null)` gives. */
  datatype Product = Product(
    id: Id,
    title: string,
    descriptionHtml: string,
    status: string,
    publishedAt: int,
    variantSkus: seq<string>)

  /** What one catalog query can come back with: the product nodes, a
      response carrying GraphQL errors, or an exception from the client. */
  datatype Response = Products(nodes: seq<Product>) | GraphQLErrors | Thrown

  /** One parsed CSV row: column name to cell text. A column absent from the
      row reads as `undefined`, modelled as None by Cell. */
  type Row = map<string, string>

  function Cell(row: Row, column: string): Option<string> {
    if column in row then Some(row[column]) else None
  }
}
