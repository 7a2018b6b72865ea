/**
  Properties that relate several calls of the product store: what a later
  read observes after each mutation, the create/delete round trip, the
  idempotence of delete and enrichment, and the sample scenarios of the
  service's seed data.
*/
module StoreProperties {
  import opened Products
  import opened ProductService

  // ---------------------------------------------------------------------------
  // Enrichment
  // ---------------------------------------------------------------------------

  /** Enriching twice against the same directory answers as enriching once. */
  lemma EnrichIdempotent(dir: Directory, p: Product)
    ensures Enrich(dir, Enrich(dir, p)) == Enrich(dir, p)
  {
  }

  /**
    With a supplier id the supplier name is recomputed, not kept: two
    products that differ only in their (possibly stale) supplier name come out
    of enrichment equal.
  */
  lemma EnrichForgetsStaleName(dir: Directory, p: Product, q: Product)
    requires Core(p) == Core(q) && p.supplierId.Some?
    ensures Enrich(dir, p) == Enrich(dir, q)
  {
  }

  // ---------------------------------------------------------------------------
  // Create
  // ---------------------------------------------------------------------------

  /** After creating under a fresh id, a lookup finds the created fields. */
  lemma CreateThenGet(s: Store, d1: Directory, d2: Directory, p: Product)
    requires p.id !in s
    ensures GetById(Create(s, d1, p).store, d2, p.id).out.Some?
    ensures Core(GetById(Create(s, d1, p).store, d2, p.id).out.value) == Core(p)
  {
  }

  /**
    Creating under a taken id keeps the stored product: a later lookup still
    reports the original fields.
  */
  lemma CreateOnTakenIdKeepsStored(s: Store, d1: Directory, d2: Directory, p: Product)
    requires p.id in s
    ensures GetById(Create(s, d1, p).store, d2, p.id).out == Some(Enrich(d2, s[p.id]))
    ensures Core(GetById(Create(s, d1, p).store, d2, p.id).out.value) == Core(s[p.id])
  {
  }

  /**
    On an id collision the caller receives the enriched input while the store
    keeps the original: on the seed data, creating product 1 under another
    name returns that name while a later lookup still says "Product A".
  */
  lemma CreateCollisionDiverges(dir: Directory)
    ensures Create(Seed(), dir, Product(1, "Product Z", false, None, None)).out.name == "Product Z"
    ensures GetById(Create(Seed(), dir, Product(1, "Product Z", false, None, None)).store, dir, 1).out
            == Some(Enrich(dir, Seed()[1]))
    ensures Enrich(dir, Seed()[1]).name == "Product A"
  {
  }

  /** Creating under a fresh id and deleting that id restores the store exactly. */
  lemma CreateDeleteRoundTrip(s: Store, dir: Directory, p: Product)
    requires p.id !in s
    ensures Delete(Create(s, dir, p).store, p.id) == s
  {
  }

  // ---------------------------------------------------------------------------
  // Update
  // ---------------------------------------------------------------------------

  /**
    After a successful update a lookup reports the new name, stock flag and
    supplier id under the old id, whatever id the argument carried.
  */
  lemma UpdateThenGet(s: Store, d1: Directory, d2: Directory, id: int, u: Product)
    requires WellKeyed(s) && id in s
    ensures GetById(Update(s, d1, id, u).store, d2, id).out.Some?
    ensures Core(GetById(Update(s, d1, id, u).store, d2, id).out.value)
            == Fields(id, u.name, u.available, u.supplierId)
  {
  }

  /**
    Clearing the supplier id skips enrichment, so the supplier name computed
    before the update survives it and every later lookup.
  */
  lemma UpdateWithoutSupplierKeepsName(s: Store, d1: Directory, d2: Directory, id: int, u: Product)
    requires id in s && u.supplierId.None?
    ensures GetById(Update(s, d1, id, u).store, d2, id).out.value.supplierName == s[id].supplierName
  {
  }

  /**
    Two updates of one id never mix: the stored fields after both are exactly
    those the second would have produced alone.
  */
  lemma UpdatesDoNotMix(s: Store, d1: Directory, d2: Directory, id: int, u1: Product, u2: Product)
    ensures CoreView(Update(Update(s, d1, id, u1).store, d2, id, u2).store)
            == CoreView(Update(s, d2, id, u2).store)
  {
  }

  /** An update of an absent id fails and a later lookup still finds nothing. */
  lemma UpdateAbsentThenGet(s: Store, dir: Directory, id: int, u: Product)
    requires id !in s
    ensures Update(s, dir, id, u).out == Err(ProductNotFound)
    ensures GetById(Update(s, dir, id, u).store, dir, id).out == None
  {
  }

  // ---------------------------------------------------------------------------
  // Delete
  // ---------------------------------------------------------------------------

  /** Deleting twice is deleting once. */
  lemma DeleteIdempotent(s: Store, id: int)
    ensures Delete(Delete(s, id), id) == Delete(s, id)
  {
  }

  /** After a delete a lookup finds nothing and changes nothing. */
  lemma DeleteThenGet(s: Store, dir: Directory, id: int)
    ensures GetById(Delete(s, id), dir, id) == Step(Delete(s, id), None)
  {
  }

  // ---------------------------------------------------------------------------
  // Scenarios on the seed data
  // ---------------------------------------------------------------------------

  /** Product 1 with a directory that knows supplier 1 as "Acme". */
  lemma SeedLookupResolved(dir: Directory)
    requires dir(1) == Some("Acme")
    ensures GetById(Seed(), dir, 1).out == Some(Product(1, "Product A", true, Some(1), Some("Acme")))
  {
  }

  /** Product 2 with a directory that cannot resolve supplier 2. */
  lemma SeedLookupUnresolved(dir: Directory)
    requires dir(2) == None
    ensures GetById(Seed(), dir, 2).out == Some(Product(2, "Product B", false, Some(2), Some(UnknownSupplier)))
  {
  }

  /** Updating id 99 of an empty store fails and the store stays empty. */
  lemma UpdateOnEmptyStore(dir: Directory, u: Product)
    ensures Update(map[], dir, 99, u) == Step(map[], Err(ProductNotFound))
  {
  }
}
