/**
 The two entity types built on the chain: manufacturers and vendors.

 Each kind lives in its own arena, so a chain only ever holds nodes of one
 type. A node's identifier is the entity's `Name` (both classes define
 `NodeId => Name`). The `Vendors` list of each manufacturer and the
 `Manufacturers` list of each vendor are kept in maps keyed by the owner's
 handle. The two classes call each other, so they share one module.
 */
module Catalog {
  import opened Wrappers
  import opened Chain

  /** All manufacturers and vendors with their many-to-many association. */
  datatype World = World(
    manufacturers: Arena,
    vendors: Arena,
    vendorsOf: map<Handle, seq<Handle>>,
    manufacturersOf: map<Handle, seq<Handle>>)

  /** The structural invariant every reachable heap keeps: both arenas hold
      only live references, every entity has its list, and every list
      entry is an entity of the other kind. */
  ghost predicate Valid(w: World)
  {
    && Closed(w.manufacturers)
    && Closed(w.vendors)
    && w.vendorsOf.Keys == w.manufacturers.Keys
    && w.manufacturersOf.Keys == w.vendors.Keys
    && (forall m, v :: m in w.vendorsOf && v in w.vendorsOf[m] ==> v in w.vendors)
    && (forall v, m :: v in w.manufacturersOf && m in w.manufacturersOf[v] ==> m in w.manufacturers)
  }

  /** The association is symmetric: `m` lists `v` exactly when `v` lists `m`. */
  ghost predicate Consistent(w: World)
  {
    forall m, v :: m in w.vendorsOf && v in w.manufacturersOf ==>
      (v in w.vendorsOf[m] <==> m in w.manufacturersOf[v])
  }

  /** No association list holds an entry twice. */
  ghost predicate NoDuplicates(w: World)
  {
    && (forall m :: m in w.vendorsOf ==> Distinct(w.vendorsOf[m]))
    && (forall v :: v in w.manufacturersOf ==> Distinct(w.manufacturersOf[v]))
  }

  /** A freshly constructed entity: named, and not linked into any chain. */
  function NewNode(name: string): (n: Node)
    ensures n.id == name && Unlinked(n)
  {
    Node(name, None, None)
  }

  /** `new Manufacturer(name)` / `new Vendor(name)`: an unlinked node named
      `name` at the unused handle `unused`; every other node is unchanged. */
  function Allocate(a: Arena, name: string, unused: Handle): (r: Arena)
    requires unused !in a
    ensures r.Keys == a.Keys + {unused}
    ensures r[unused].id == name && Unlinked(r[unused])
    ensures forall k :: k in a ==> r[k] == a[k]
    ensures Closed(a) ==> Closed(r)
  {
    a[unused := NewNode(name)]
  }

  /** Find-or-create shared by `ChainedManufacturer` and `ChainedVendor`:
      search the chain of `other` for `name`; on a miss make a node at the
      handle `unused` and, when `other` is non-null, insert it right
      after `other`. */
  function FindOrCreate(a: Arena, name: string, other: Option<Handle>, unused: Handle): (r: (Arena, Handle))
    requires Closed(a) && Live(a, other) && unused !in a
    ensures r.1 in r.0 && r.0[r.1].id == name
    ensures Closed(r.0)
    ensures r.1 in a ==> r.0 == a
    ensures r.1 !in a ==> r.1 == unused && r.0.Keys == a.Keys + {unused}
    ensures other.Some? && SearchChain(a, other.value, name).Some? ==>
              r == (a, SearchChain(a, other.value, name).value)
    ensures (other.None? || SearchChain(a, other.value, name).None?) ==>
              && r.1 == unused
              && r.0.Keys == a.Keys + {unused}
              && r.0[unused].id == name
    ensures other.None? ==>
              Unlinked(r.0[unused]) && forall k :: k in a ==> r.0[k] == a[k]
    ensures other.Some? && SearchChain(a, other.value, name).None? ==>
              && r.0[other.value].next == Some(unused)
              && r.0[unused].prev == other
              && r.0[unused].next == a[other.value].next
              && (a[other.value].next.Some? ==> r.0[a[other.value].next.value].prev == Some(unused))
              && forall k :: k in a && k != other.value && Some(k) != a[other.value].next ==> r.0[k] == a[k]
  {
    if other.None? then (Allocate(a, name, unused), unused)
    else
      match SearchChain(a, other.value, name)
      case Some(x) => (a, x)
      case None => (AddNodeToChain(Allocate(a, name, unused), other.value, unused), unused)
  }

  /** ChainedManufacturer: the manufacturer named `name` in the chain of
      `other`, or a new one (with no vendors) added after `other`. */
  function ChainedManufacturer(w: World, name: string, other: Option<Handle>, unused: Handle): (r: (World, Handle))
    requires Closed(w.manufacturers) && Live(w.manufacturers, other) && unused !in w.manufacturers
    ensures r.1 in r.0.manufacturers && r.0.manufacturers[r.1].id == name
    ensures r.0.manufacturers == FindOrCreate(w.manufacturers, name, other, unused).0
    ensures r.1 == FindOrCreate(w.manufacturers, name, other, unused).1
    ensures r.1 in w.manufacturers ==> r.0 == w
    ensures r.1 !in w.manufacturers ==>
              && r.1 == unused
              && r.0.vendorsOf == w.vendorsOf[unused := []]
              && r.0.vendors == w.vendors
              && r.0.manufacturersOf == w.manufacturersOf
  {
    var (a, m) := FindOrCreate(w.manufacturers, name, other, unused);
    if m in w.manufacturers then (w, m)
    else (w.(manufacturers := a, vendorsOf := w.vendorsOf[m := []]), m)
  }

  /** ChainedVendor: the vendor named `name` in the chain of `other`, or a
      new one (with no manufacturers) added after `other`. */
  function ChainedVendor(w: World, name: string, other: Option<Handle>, unused: Handle): (r: (World, Handle))
    requires Closed(w.vendors) && Live(w.vendors, other) && unused !in w.vendors
    ensures r.1 in r.0.vendors && r.0.vendors[r.1].id == name
    ensures r.0.vendors == FindOrCreate(w.vendors, name, other, unused).0
    ensures r.1 == FindOrCreate(w.vendors, name, other, unused).1
    ensures r.1 in w.vendors ==> r.0 == w
    ensures r.1 !in w.vendors ==>
              && r.1 == unused
              && r.0.manufacturersOf == w.manufacturersOf[unused := []]
              && r.0.manufacturers == w.manufacturers
              && r.0.vendorsOf == w.vendorsOf
  {
    var (a, v) := FindOrCreate(w.vendors, name, other, unused);
    if v in w.vendors then (w, v)
    else (w.(vendors := a, manufacturersOf := w.manufacturersOf[v := []]), v)
  }

  /** How many of the two directions of the pair `(m, v)` are still missing;
      each call of the mutual recursion below adds one, so it stops. */
  function Missing(w: World, m: Handle, v: Handle): (n: nat)
    requires m in w.vendorsOf && v in w.manufacturersOf
    ensures n <= 2
    ensures n == 0 <==> v in w.vendorsOf[m] && m in w.manufacturersOf[v]
  {
    (if v in w.vendorsOf[m] then 0 else 1) + (if m in w.manufacturersOf[v] then 0 else 1)
  }

  /** HasVendor: whether `v` is in the `Vendors` list of `m`, that is,
      whether some position of that list holds `v`. On a symmetric
      association it agrees with the `Manufacturers` list of `v`. */
  function HasVendor(w: World, m: Handle, v: Handle): (b: bool)
    requires m in w.vendorsOf
    ensures b <==> exists k :: 0 <= k < |w.vendorsOf[m]| && w.vendorsOf[m][k] == v
    ensures Consistent(w) && v in w.manufacturersOf ==> (b <==> m in w.manufacturersOf[v])
  {
    v in w.vendorsOf[m]
  }

  /** AddVendor: unless `m` already lists `v`, append `v` to the vendors of
      `m` and let `v` record `m` in turn. */
  function AddVendor(w: World, m: Handle, v: Handle): (r: World)
    requires m in w.vendorsOf && v in w.manufacturersOf
    ensures r.manufacturers == w.manufacturers && r.vendors == w.vendors
    ensures r.vendorsOf.Keys == w.vendorsOf.Keys && r.manufacturersOf.Keys == w.manufacturersOf.Keys
    ensures HasVendor(r, m, v)
    ensures v in w.vendorsOf[m] ==> r == w
    ensures v !in w.vendorsOf[m] ==> r.vendorsOf[m] == w.vendorsOf[m] + [v] && m in r.manufacturersOf[v]
    ensures m in w.manufacturersOf[v] ==> r.manufacturersOf[v] == w.manufacturersOf[v]
    ensures v !in w.vendorsOf[m] && m !in w.manufacturersOf[v] ==>
              r.manufacturersOf[v] == w.manufacturersOf[v] + [m]
    ensures forall k :: k in w.vendorsOf && k != m ==> r.vendorsOf[k] == w.vendorsOf[k]
    ensures forall k :: k in w.manufacturersOf && k != v ==> r.manufacturersOf[k] == w.manufacturersOf[k]
    decreases Missing(w, m, v)
  {
    if v in w.vendorsOf[m] then w
    else AddManufacturer(w.(vendorsOf := w.vendorsOf[m := w.vendorsOf[m] + [v]]), v, m)
  }

  /** AddManufacturer: unless `v` already lists `m`, append `m` to the
      manufacturers of `v` and let `m` record `v` in turn. */
  function AddManufacturer(w: World, v: Handle, m: Handle): (r: World)
    requires m in w.vendorsOf && v in w.manufacturersOf
    ensures r.manufacturers == w.manufacturers && r.vendors == w.vendors
    ensures r.vendorsOf.Keys == w.vendorsOf.Keys && r.manufacturersOf.Keys == w.manufacturersOf.Keys
    ensures m in r.manufacturersOf[v]
    ensures m in w.manufacturersOf[v] ==> r == w
    ensures m !in w.manufacturersOf[v] ==> r.manufacturersOf[v] == w.manufacturersOf[v] + [m] && HasVendor(r, m, v)
    ensures v in w.vendorsOf[m] ==> r.vendorsOf[m] == w.vendorsOf[m]
    ensures m !in w.manufacturersOf[v] && v !in w.vendorsOf[m] ==>
              r.vendorsOf[m] == w.vendorsOf[m] + [v]
    ensures forall k :: k in w.vendorsOf && k != m ==> r.vendorsOf[k] == w.vendorsOf[k]
    ensures forall k :: k in w.manufacturersOf && k != v ==> r.manufacturersOf[k] == w.manufacturersOf[k]
    decreases Missing(w, m, v)
  {
    if m in w.manufacturersOf[v] then w
    else AddVendor(w.(manufacturersOf := w.manufacturersOf[v := w.manufacturersOf[v] + [m]]), m, v)
  }

  /** Vendor.Dispose: unlinks the vendor from its chain and touches nothing
      else; the association lists still name it. */
  function Dispose(w: World, v: Handle): (r: World)
    requires Closed(w.vendors) && v in w.vendors
    ensures r.vendors.Keys == w.vendors.Keys
    ensures Unlinked(r.vendors[v]) && r.vendors[v].id == w.vendors[v].id
    ensures w.vendors[v].prev.Some? && w.vendors[v].prev != Some(v) ==>
              r.vendors[w.vendors[v].prev.value].next == w.vendors[v].next
    ensures w.vendors[v].next.Some? && w.vendors[v].next != Some(v) ==>
              r.vendors[w.vendors[v].next.value].prev == w.vendors[v].prev
    ensures w.vendors[v].prev.Some? && w.vendors[v].prev != Some(v) && w.vendors[v].prev != w.vendors[v].next ==>
              r.vendors[w.vendors[v].prev.value].prev == w.vendors[w.vendors[v].prev.value].prev
    ensures w.vendors[v].next.Some? && w.vendors[v].next != Some(v) && w.vendors[v].prev != w.vendors[v].next ==>
              r.vendors[w.vendors[v].next.value].next == w.vendors[w.vendors[v].next.value].next
    ensures forall k :: k in w.vendors && k != v && Some(k) != w.vendors[v].prev && Some(k) != w.vendors[v].next ==>
              r.vendors[k] == w.vendors[k]
    ensures Unlinked(w.vendors[v]) ==> r == w
    ensures r.manufacturers == w.manufacturers
    ensures r.vendorsOf == w.vendorsOf && r.manufacturersOf == w.manufacturersOf
    ensures Valid(w) ==> Valid(r)
  {
    w.(vendors := UnlinkFromChain(w.vendors, v))
  }
}
