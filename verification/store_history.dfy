/**
  Histories of store operations. As a modelling choice, each operation,
  enrichment included, is one atomic transition of the store, and a history
  is a sequence of them. The Java service only makes the map's own steps
  atomic per key; its enrichment writes to stored objects outside that
  lock. Only update writes the authoritative fields, and it does so inside
  the per-key step. The lemmas state what holds of every history: stored ids
  stay equal to their keys, the supplier directory never influences the
  authoritative fields, and reads never change them.
*/
module StoreHistory {
  import opened Products
  import ProductService

  type Store = ProductService.Store

  /** One call on the store, with its arguments. */
  datatype Call =
    | ListAll
    | ListAvailable
    | GetById(id: int)
    | Create(product: Product)
    | Update(id: int, changes: Product)
    | Delete(id: int)
  {
    /** Calls that only return product data (and enrich what they return). */
    predicate IsRead() {
      ListAll? || ListAvailable? || GetById?
    }
  }

  /** The store after one call; a failed update leaves it as it was. */
  function Apply(s: Store, dir: Directory, c: Call): (r: Store)
    ensures c.IsRead() ==> ProductService.CoreView(r) == ProductService.CoreView(s)
    ensures c.Create? ==> r.Keys == s.Keys + {c.product.id}
    ensures c.Delete? ==> r.Keys == s.Keys - {c.id}
    ensures !c.Create? && !c.Delete? ==> r.Keys == s.Keys
  {
    match c
    case ListAll => ProductService.EnrichKeys(s, dir, s.Keys)
    case ListAvailable => ProductService.EnrichKeys(s, dir, ProductService.AvailableIds(s))
    case GetById(id) => ProductService.GetById(s, dir, id).store
    case Create(p) => ProductService.Create(s, dir, p).store
    case Update(id, u) => ProductService.Update(s, dir, id, u).store
    case Delete(id) => ProductService.Delete(s, id)
  }

  /** The store after the calls of `h`, in order. */
  function Run(s: Store, dir: Directory, h: seq<Call>): Store
    decreases |h|
  {
    if h == [] then s else Run(Apply(s, dir, h[0]), dir, h[1..])
  }

  /** The calls of `h` that may change the authoritative fields, in order. */
  function Writes(h: seq<Call>): (w: seq<Call>)
    ensures forall i :: 0 <= i < |w| ==> !w[i].IsRead()
    ensures |w| <= |h|
  {
    if h == [] then []
    else if h[0].IsRead() then Writes(h[1..])
    else [h[0]] + Writes(h[1..])
  }

  /** Every call keeps each stored product under its own id. */
  lemma ApplyPreservesWellKeyed(s: Store, dir: Directory, c: Call)
    requires ProductService.WellKeyed(s)
    ensures ProductService.WellKeyed(Apply(s, dir, c))
  {
  }

  /** Every history keeps each stored product under its own id. */
  lemma {:induction false} RunPreservesWellKeyed(s: Store, dir: Directory, h: seq<Call>)
    requires ProductService.WellKeyed(s)
    ensures ProductService.WellKeyed(Run(s, dir, h))
    decreases |h|
  {
    if h != [] {
      ApplyPreservesWellKeyed(s, dir, h[0]);
      RunPreservesWellKeyed(Apply(s, dir, h[0]), dir, h[1..]);
    }
  }

  /** Equal authoritative views mean equal keys and equal authoritative fields under each. */
  lemma CoreViewPointwise(s1: Store, s2: Store)
    ensures ProductService.CoreView(s1) == ProductService.CoreView(s2) <==>
            s1.Keys == s2.Keys && forall k :: k in s1 ==> Core(s1[k]) == Core(s2[k])
  {
    var v1, v2 := ProductService.CoreView(s1), ProductService.CoreView(s2);
    if v1 == v2 {
      assert s1.Keys == v1.Keys && s2.Keys == v2.Keys;
      forall k | k in s1
        ensures Core(s1[k]) == Core(s2[k])
      {
        assert v1[k] == Core(s1[k]) && v2[k] == Core(s2[k]);
      }
    }
    if s1.Keys == s2.Keys && forall k :: k in s1 ==> Core(s1[k]) == Core(s2[k]) {
      assert v1.Keys == v2.Keys;
      forall k | k in v1
        ensures v1[k] == v2[k]
      {
      }
      assert v1 == v2;
    }
  }

  /**
    The authoritative fields after a call depend only on those before it, and
    not on the supplier directory or on cached supplier names.
  */
  lemma ApplyCoreCongruent(s1: Store, s2: Store, d1: Directory, d2: Directory, c: Call)
    requires ProductService.CoreView(s1) == ProductService.CoreView(s2)
    ensures ProductService.CoreView(Apply(s1, d1, c)) == ProductService.CoreView(Apply(s2, d2, c))
  {
    if !c.IsRead() {
      var r1, r2 := Apply(s1, d1, c), Apply(s2, d2, c);
      CoreViewPointwise(s1, s2);
      CoreViewPointwise(r1, r2);
    }
  }

  /**
    Whatever the directory answers, and whatever supplier names are cached,
    a history produces the same authoritative fields.
  */
  lemma {:induction false} RunCoreIndependentOfDirectory(
    s1: Store, s2: Store, d1: Directory, d2: Directory, h: seq<Call>)
    requires ProductService.CoreView(s1) == ProductService.CoreView(s2)
    ensures ProductService.CoreView(Run(s1, d1, h)) == ProductService.CoreView(Run(s2, d2, h))
    decreases |h|
  {
    if h != [] {
      ApplyCoreCongruent(s1, s2, d1, d2, h[0]);
      RunCoreIndependentOfDirectory(Apply(s1, d1, h[0]), Apply(s2, d2, h[0]), d1, d2, h[1..]);
    }
  }

  /**
    Reads never change the authoritative fields: a history ends with the same
    ones as its writes alone.
  */
  lemma {:induction false} ReadsDoNotChangeCore(s: Store, dir: Directory, h: seq<Call>)
    ensures ProductService.CoreView(Run(s, dir, h)) == ProductService.CoreView(Run(s, dir, Writes(h)))
    decreases |h|
  {
    if h != [] {
      var s' := Apply(s, dir, h[0]);
      if h[0].IsRead() {
        RunCoreIndependentOfDirectory(s', s, dir, dir, h[1..]);
        ReadsDoNotChangeCore(s, dir, h[1..]);
      } else {
        assert Writes(h) == [h[0]] + Writes(h[1..]);
        assert Writes(h)[1..] == Writes(h[1..]);
        ReadsDoNotChangeCore(s', dir, h[1..]);
      }
    }
  }
}
