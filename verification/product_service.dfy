/**
  The product store: a finite map from product id to product, its six
  operations, and the supplier enrichment every returned product passes
  through.

  Enrichment in the Java service mutates the very object the store holds, so a
  read also rewrites the stored supplier name. The model keeps that effect
  with value semantics: every operation returns the store after the call
  together with what the caller receives, and an enriched product is written
  back under its key exactly when the Java service would have mutated the stored
  object.
*/
module ProductService {
  import opened Products

  type Store = map<int, Product>

  /** What an operation hands back: the store after the call and the caller's result. */
  datatype Step<T> = Step(store: Store, out: T)

  /** Every stored product carries the id it is stored under. */
  predicate WellKeyed(s: Store) {
    forall k :: k in s ==> s[k].id == k
  }

  /** The store restricted to its authoritative fields. */
  function CoreView(s: Store): map<int, Fields> {
    map k | k in s :: Core(s[k])
  }

  /** `s` and `t` hold the same products under every key other than `k`. */
  ghost predicate AgreeOutside(s: Store, t: Store, k: int) {
    forall j :: j != k ==> (j in s <==> j in t) && (j in s ==> s[j] == t[j])
  }

  /** A sequence without repeated elements. */
  predicate Distinct<T(==)>(xs: seq<T>) {
    forall i, j :: 0 <= i < j < |xs| ==> xs[i] != xs[j]
  }

  /** The ids of the products whose stock flag is set. */
  function AvailableIds(s: Store): set<int> {
    set k | k in s && s[k].available
  }

  /** The sample data the service starts with. */
  function Seed(): (s: Store)
    ensures WellKeyed(s)
    ensures s.Keys == {1, 2, 3}
    ensures AvailableIds(s) == {1, 3}
    ensures forall k :: k in s ==> s[k].supplierId == Some(k) && s[k].supplierName == None
  {
    map[1 := Product(1, "Product A", true, Some(1), None),
        2 := Product(2, "Product B", false, Some(2), None),
        3 := Product(3, "Product C", true, Some(3), None)]
  }

  // ---------------------------------------------------------------------------
  // Enrichment
  // ---------------------------------------------------------------------------

  /** The name a directory answer turns into: the supplier's name, or the sentinel on any failure. */
  function ResolvedName(answer: Option<string>): string {
    match answer
    case Some(n) => n
    case None => UnknownSupplier
  }

  /**
    Attaches the supplier's display name. With a supplier id the directory is
    consulted and its answer, or the sentinel, replaces the name; without one
    the product is returned as it is. It never fails outward.
  */
  function Enrich(dir: Directory, p: Product): (r: Product)
    ensures Core(r) == Core(p)
    ensures p.supplierId.None? ==> r.supplierName == p.supplierName
    ensures p.supplierId.Some? && dir(p.supplierId.value).Some? ==>
              r.supplierName == dir(p.supplierId.value)
    ensures p.supplierId.Some? && dir(p.supplierId.value).None? ==>
              r.supplierName == Some(UnknownSupplier)
  {
    match p.supplierId
    case None => p
    case Some(sid) => p.(supplierName := Some(ResolvedName(dir(sid))))
  }

  /** The store after enriching, in place, the products under `keys`. */
  function EnrichKeys(s: Store, dir: Directory, keys: set<int>): (r: Store)
    ensures r.Keys == s.Keys
    ensures CoreView(r) == CoreView(s)
  {
    map k | k in s :: if k in keys then Enrich(dir, s[k]) else s[k]
  }

  /** The elements of a sequence, as a set. */
  function Elems<T>(xs: seq<T>): set<T> {
    set x | x in xs
  }

  /**
    `order` lists every key of `s` exactly once: one of the iteration orders
    the map may present its values in. The order itself is unspecified, so
    the listing operations take it as a parameter.
  */
  ghost predicate Enumerates(order: seq<int>, s: Store) {
    && Distinct(order)
    && (forall i :: 0 <= i < |order| ==> order[i] in s)
    && (forall k :: k in s ==> k in order)
  }

  /** A non-empty set has an element. */
  lemma NonEmptyHasElement(xs: set<int>)
    requires xs != {}
    ensures exists x :: x in xs
  {
    if forall x :: x !in xs {
    }
  }

  /** Every finite set of ids can be listed once each, in some order. */
  lemma {:induction false} SomeEnumeration(keys: set<int>) returns (order: seq<int>)
    ensures Distinct(order)
    ensures forall i :: 0 <= i < |order| ==> order[i] in keys
    ensures forall k :: k in keys ==> k in order
    decreases |keys|
  {
    if keys == {} {
      order := [];
    } else {
      NonEmptyHasElement(keys);
      var k :| k in keys;
      var rest := SomeEnumeration(keys - {k});
      order := [k] + rest;
      forall x | x in keys
        ensures x in order
      {
        if x != k {
          assert x in keys - {k};
        }
      }
    }
  }

  /** Every store has an iteration order, so the listing operations can always be called. */
  lemma EveryStoreIsEnumerable(s: Store)
    ensures exists order :: Enumerates(order, s)
  {
    var order := SomeEnumeration(s.Keys);
    assert Enumerates(order, s);
  }

  /** `a` occurs before `b` in `xs`. */
  ghost predicate Before(xs: seq<int>, a: int, b: int) {
    exists i, j :: 0 <= i < j < |xs| && xs[i] == a && xs[j] == b
  }

  /** Orderings in the tail of a sequence hold in the whole, and its head precedes the tail. */
  lemma BeforeTail(xs: seq<int>)
    requires xs != []
    ensures forall a, b :: Before(xs[1..], a, b) ==> Before(xs, a, b)
    ensures forall b :: b in xs[1..] ==> Before(xs, xs[0], b)
  {
  }

  /** A sequence without repeated elements has as many elements as its set. */
  lemma {:induction false} DistinctElemsCard<T>(xs: seq<T>)
    requires Distinct(xs)
    ensures |Elems(xs)| == |xs|
  {
    if xs != [] {
      var init, last := xs[..|xs| - 1], xs[|xs| - 1];
      assert xs == init + [last];
      assert Distinct(init);
      DistinctElemsCard(init);
      assert Elems(xs) == Elems(init) + {last};
      assert last !in Elems(init);
    }
  }

  /** An enumeration of the store's keys holds each of them, and only them, once. */
  lemma EnumeratesKeys(order: seq<int>, s: Store)
    requires Enumerates(order, s)
    ensures Elems(order) == s.Keys
    ensures |order| == |s|
  {
    forall k | k in Elems(order)
      ensures k in s
    {
      var i :| 0 <= i < |order| && order[i] == k;
    }
    forall k | k in s
      ensures k in Elems(order)
    {
      assert k in order;
    }
    assert Elems(order) == s.Keys;
    DistinctElemsCard(order);
  }

  /**
    Reading a store's products along an enumeration of its keys yields
    exactly the store's values.
  */
  lemma ListsValues(m: Store, order: seq<int>, out: seq<Product>)
    requires Elems(order) == m.Keys
    requires |out| == |order| && forall i :: 0 <= i < |order| ==> out[i] == m[order[i]]
    ensures Elems(out) == m.Values
  {
  }

  /**
    The stream filter on the stock flag: the keys of `order` whose product is
    available, in the same relative order.
  */
  function AvailableInOrder(s: Store, order: seq<int>): (r: seq<int>)
    requires forall i :: 0 <= i < |order| ==> order[i] in s
    ensures forall i :: 0 <= i < |r| ==> r[i] in s && r[i] in order && s[r[i]].available
    ensures forall i :: 0 <= i < |order| && s[order[i]].available ==> order[i] in r
    ensures Distinct(order) ==> Distinct(r)
    ensures forall i, j :: 0 <= i < j < |r| ==> Before(order, r[i], r[j])
    ensures |r| <= |order|
  {
    if order == [] then []
    else
      var rest := AvailableInOrder(s, order[1..]);
      BeforeTail(order);
      if s[order[0]].available then
        assert order[0] !in order[1..] ==> order[0] !in rest;
        [order[0]] + rest
      else rest
  }

  /**
    The list overload of enrichment: the products stored under the keys of
    `order` are enriched one by one, each written back under its key, and
    returned in the same order.
  */
  method EnrichEach(s: Store, dir: Directory, order: seq<int>) returns (s': Store, out: seq<Product>)
    requires forall i :: 0 <= i < |order| ==> order[i] in s
    ensures s' == EnrichKeys(s, dir, Elems(order))
    ensures |out| == |order|
    ensures forall i :: 0 <= i < |order| ==> out[i] == Enrich(dir, s[order[i]])
    ensures WellKeyed(s) && Distinct(order) ==> Distinct(out)
  {
    s' := s;
    assert s' == EnrichKeys(s, dir, {});
    out := [];
    for i := 0 to |order|
      invariant |out| == i
      invariant forall j :: 0 <= j < i ==> out[j] == Enrich(dir, s[order[j]])
      invariant s' == EnrichKeys(s, dir, Elems(order[..i]))
    {
      var k := order[i];
      assert Elems(order[..i + 1]) == Elems(order[..i]) + {k} by {
        assert order[..i + 1] == order[..i] + [k];
      }
      assert EnrichKeys(s, dir, Elems(order[..i]) + {k}) == s'[k := Enrich(dir, s[k])];
      out := out + [Enrich(dir, s[k])];
      s' := s'[k := Enrich(dir, s[k])];
    }
    assert order[..|order|] == order;
    if WellKeyed(s) && Distinct(order) {
      forall i, j | 0 <= i < j < |out|
        ensures out[i] != out[j]
      {
        assert out[i].id == order[i] && out[j].id == order[j];
      }
    }
  }

  // ---------------------------------------------------------------------------
  // Operations
  // ---------------------------------------------------------------------------

  /**
    All products, in iteration order, each enriched and written back: the
    list holds exactly the stored products after the call, one per key.
  */
  method GetAll(s: Store, dir: Directory, order: seq<int>) returns (s': Store, out: seq<Product>)
    requires Enumerates(order, s)
    ensures s' == EnrichKeys(s, dir, s.Keys)
    ensures CoreView(s') == CoreView(s)
    ensures |out| == |order| && forall i :: 0 <= i < |order| ==> out[i] == s'[order[i]]
    ensures Elems(out) == s'.Values
    ensures |out| == |s|
    ensures WellKeyed(s) ==> Distinct(out)
  {
    s', out := EnrichEach(s, dir, order);
    EnumeratesKeys(order, s);
    ListsValues(s', order, out);
  }

  /**
    The products whose stock flag is set, in iteration order, each enriched;
    only those are written back. The result is exactly the available part of
    what `GetAll` returns from the same store.
  */
  method GetAvailableStockProducts(s: Store, dir: Directory, order: seq<int>) returns (s': Store, out: seq<Product>)
    requires Enumerates(order, s)
    ensures s' == EnrichKeys(s, dir, AvailableIds(s))
    ensures CoreView(s') == CoreView(s)
    ensures forall p :: p in out <==> p in EnrichKeys(s, dir, s.Keys).Values && p.available
    ensures |out| == |AvailableIds(s)|
    ensures WellKeyed(s) ==> Distinct(out)
    ensures WellKeyed(s) ==> forall i, j :: 0 <= i < j < |out| ==> Before(order, out[i].id, out[j].id)
  {
    var avail := AvailableInOrder(s, order);
    s', out := EnrichEach(s, dir, avail);
    forall k | k in Elems(avail)
      ensures k in AvailableIds(s)
    {
      var i :| 0 <= i < |avail| && avail[i] == k;
    }
    forall k | k in AvailableIds(s)
      ensures k in Elems(avail)
    {
      var i :| 0 <= i < |order| && order[i] == k;
    }
    assert Elems(avail) == AvailableIds(s);
    DistinctElemsCard(avail);
    var all := EnrichKeys(s, dir, s.Keys);
    forall k | k in all && all[k].available
      ensures all[k] in out
    {
      var i :| 0 <= i < |avail| && avail[i] == k;
      assert out[i] == all[k];
    }
    forall p | p in out
      ensures p in all.Values && p.available
    {
      var i :| 0 <= i < |out| && out[i] == p;
      assert all[avail[i]] == p;
    }    if WellKeyed(s) {
      forall i, j | 0 <= i < j < |out|
        ensures Before(order, out[i].id, out[j].id)
      {
        assert out[i].id == avail[i] && out[j].id == avail[j];
      }
    }
  }

  /** The product under `id`, enriched and written back, or nothing if `id` is absent. */
  function GetById(s: Store, dir: Directory, id: int): (r: Step<Option<Product>>)
    ensures r.out.Some? <==> id in s
    ensures id !in s ==> r.store == s
    ensures id in s ==> r.out.value == Enrich(dir, s[id])
    ensures id in s ==> r.store.Keys == s.Keys && r.store[id] == r.out.value
    ensures AgreeOutside(s, r.store, id)
    ensures CoreView(r.store) == CoreView(s)
  {
    if id in s then
      var p := Enrich(dir, s[id]);
      Step(s[id := p], Some(p))
    else
      Step(s, None)
  }

  /**
    Inserts `p` under its id unless that id is already taken, in which case
    the store is left alone. Either way the caller receives the enriched
    input, not the stored product.
  */
  function Create(s: Store, dir: Directory, p: Product): (r: Step<Product>)
    ensures r.out == Enrich(dir, p)
    ensures p.id in s ==> r.store == s
    ensures p.id !in s ==> r.store.Keys == s.Keys + {p.id} && r.store[p.id] == r.out
    ensures AgreeOutside(s, r.store, p.id)
  {
    var e := Enrich(dir, p);
    if p.id in s then Step(s, e) else Step(s[p.id := e], e)
  }

  /**
    Overwrites name, stock flag and supplier id of the product under `id`
    with those of `u`, re-enriches it and stores it; the stored id is kept.
    Fails with `ProductNotFound`, leaving the store unchanged, when `id` is
    absent.
  */
  function Update(s: Store, dir: Directory, id: int, u: Product): (r: Step<Result<Product>>)
    ensures r.out.Err? <==> id !in s
    ensures id !in s ==> r.store == s && r.out == Err(ProductNotFound)
    ensures id in s ==> Core(r.out.value) == Fields(s[id].id, u.name, u.available, u.supplierId)
    ensures id in s && u.supplierId.Some? ==>
              r.out.value.supplierName == Some(ResolvedName(dir(u.supplierId.value)))
    ensures id in s && u.supplierId.None? ==> r.out.value.supplierName == s[id].supplierName
    ensures id in s ==> r.store.Keys == s.Keys && r.store[id] == r.out.value
    ensures AgreeOutside(s, r.store, id)
  {
    if id !in s then
      Step(s, Err(ProductNotFound))
    else
      var p := Enrich(dir, s[id].(name := u.name, available := u.available, supplierId := u.supplierId));
      Step(s[id := p], Ok(p))
  }

  /** Removes the product under `id`; an absent id is not an error. */
  function Delete(s: Store, id: int): (r: Store)
    ensures id !in r
    ensures r.Keys == s.Keys - {id}
    ensures id !in s ==> r == s
    ensures AgreeOutside(s, r, id)
  {
    s - {id}
  }
}
