/**
  The data model of the inventory core: products, the supplier directory the
  store consults, and the typed results of the store's operations.
*/
module Products {

  /** A value that may be missing: Java's `null` and `Optional.empty()`. */
  datatype Option<+T> = None | Some(value: T)

  /** The only failure a store operation surfaces to its caller. */
  datatype Failure = ProductNotFound

  /** Outcome of an operation that may fail outward. */
  datatype Result<+T> = Ok(value: T) | Err(error: Failure)

  /**
    A catalog entry. `supplierId` is the nullable foreign key into the
    supplier directory; `supplierName` is the display name that enrichment
    fills in, `None` until the first enrichment.
  */
  datatype Product = Product(
    id: int,
    name: string,
    available: bool,
    supplierId: Option<int>,
    supplierName: Option<string>)

  /** The authoritative part of a product: every field except the derived supplier name. */
  datatype Fields = Fields(id: int, name: string, available: bool, supplierId: Option<int>)

  function Core(p: Product): Fields {
    Fields(p.id, p.name, p.available, p.supplierId)
  }

  /**
    The supplier directory, abstracted as a total lookup from supplier id to
    supplier name; `None` stands for every way the lookup can fail.
  */
  type Directory = int -> Option<string>

  /** The display name written when the directory lookup fails. */
  const UnknownSupplier: string := "Unknown Supplier"
}
