/**
 Properties of the manufacturer / vendor layer: find-or-create never adds a
 second node for a name already in the chain, and the association is kept
 symmetric and duplicate-free whichever side starts it.
 */
module CatalogLemmas {
  import opened Wrappers
  import opened Chain
  import opened ChainLemmas
  import opened Catalog

  /** A chain is still a chain in an arena that agrees with the old one on its members. */
  lemma ChainFrame(a: Arena, b: Arena, s: seq<Handle>)
    requires IsChain(a, s)
    requires forall k :: 0 <= k < |s| ==> s[k] in b && b[s[k]] == a[s[k]]
    ensures IsChain(b, s)
  {
  }

  /** Splicing a node whose identifier no member carries into a chain with
      unique identifiers keeps the identifiers unique. */
  lemma SpliceKeepsUniqueIds(a: Arena, b: Arena, s: seq<Handle>, i: nat, n: Handle)
    requires (forall k :: 0 <= k < |s| ==> s[k] in a && s[k] in b && b[s[k]].id == a[s[k]].id)
    requires UniqueIds(a, s) && i < |s| && n in b
    requires forall k :: 0 <= k < |s| ==> a[s[k]].id != b[n].id
    ensures UniqueIds(b, s[..i + 1] + [n] + s[i + 1..])
  {
    var t := s[..i + 1] + [n] + s[i + 1..];
    forall p, q | 0 <= p < q < |t| ensures b[t[p]].id != b[t[q]].id {
      var p' := if p <= i then p else p - 1;
      var q' := if q <= i then q else q - 1;
      if p == i + 1 {
        assert t[q] == s[q'];
      } else if q == i + 1 {
        assert t[p] == s[p'];
      } else {
        assert t[p] == s[p'] && t[q] == s[q'];
      }
    }
  }

  /** Find-or-create from member `i` of a chain with unique identifiers
      leaves a chain with unique identifiers holding the result: the same
      chain on a hit, the chain with the new node spliced in after member
      `i` on a miss. */
  lemma FindOrCreateOnChain(a: Arena, s: seq<Handle>, i: nat, name: string, unused: Handle)
    returns (s': seq<Handle>)
    requires Closed(a) && IsChain(a, s) && UniqueIds(a, s) && i < |s| && unused !in a
    ensures var (a', x) := FindOrCreate(a, name, Some(s[i]), unused);
            && IsChain(a', s') && UniqueIds(a', s') && x in s'
            && (x in a ==> s' == s)
            && (x !in a ==> s' == s[..i + 1] + [unused] + s[i + 1..])
  {
    var (a', x) := FindOrCreate(a, name, Some(s[i]), unused);
    if x in a {
      assert x in s by {
        SearchOnChain(a, s, i, name);
      }
      s' := s;
    } else {
      assert forall k :: 0 <= k < |s| ==> a[s[k]].id != name by {
        SearchOnChain(a, s, i, name);
      }
      var b := Allocate(a, name, unused);
      assert a' == AddNodeToChain(b, s[i], unused);
      s' := s[..i + 1] + [unused] + s[i + 1..];
      assert IsChain(a', s') by {
        ChainFrame(a, b, s);
        AddSplices(b, s, i, unused);
      }
      SpliceKeepsUniqueIds(a, a', s, i, unused);
      assert s'[i + 1] == unused;
    }
  }

  /** Asking for a name already in a chain with unique identifiers returns
      that node, from whichever member the search starts, and changes nothing. */
  lemma FindOrCreateFindsExisting(a: Arena, s: seq<Handle>, j: nat, x: Handle, name: string, unused: Handle)
    requires Closed(a) && IsChain(a, s) && UniqueIds(a, s) && j < |s| && unused !in a
    requires x in s && a[x].id == name
    ensures FindOrCreate(a, name, Some(s[j]), unused) == (a, x)
  {
    SearchFindsUnique(a, s, j, x, name);
  }

  /** Find-or-create twice with the same name gives one node: the second
      call, started from any member of the chain the first left behind,
      returns the node of the first call and leaves the arena alone. */
  lemma FindOrCreateNoDuplicate(a: Arena, s: seq<Handle>, i: nat, name: string, unused: Handle, j: nat, unused2: Handle)
    requires Closed(a) && IsChain(a, s) && UniqueIds(a, s) && i < |s| && unused !in a
    ensures var (a', x) := FindOrCreate(a, name, Some(s[i]), unused);
            var s' := if x in a then s else s[..i + 1] + [unused] + s[i + 1..];
            j < |s'| && unused2 !in a' ==> FindOrCreate(a', name, Some(s'[j]), unused2) == (a', x)
  {
    var (a', x) := FindOrCreate(a, name, Some(s[i]), unused);
    var s' := FindOrCreateOnChain(a, s, i, name, unused);
    if j < |s'| && unused2 !in a' {
      FindOrCreateFindsExisting(a', s', j, x, name, unused2);
    }
  }

  /** Registering a new manufacturer with an empty vendor list keeps the
      heap invariant, the symmetry of the association and the absence of
      duplicates, because no vendor can already refer to the new handle. */
  lemma NewManufacturerKeepsInvariants(w: World, a: Arena, m: Handle)
    requires Valid(w) && m !in w.manufacturers
    requires Closed(a) && a.Keys == w.manufacturers.Keys + {m}
    ensures var r := w.(manufacturers := a, vendorsOf := w.vendorsOf[m := []]);
            && Valid(r)
            && (Consistent(w) ==> Consistent(r))
            && (NoDuplicates(w) ==> NoDuplicates(r))
  {
    var r := w.(manufacturers := a, vendorsOf := w.vendorsOf[m := []]);
    assert forall v :: v in w.manufacturersOf ==> m !in w.manufacturersOf[v];
    assert Distinct(r.vendorsOf[m]);
  }

  /** Registering a new vendor with an empty manufacturer list keeps the
      heap invariant, the symmetry of the association and the absence of
      duplicates, because no manufacturer can already refer to the new handle. */
  lemma NewVendorKeepsInvariants(w: World, a: Arena, v: Handle)
    requires Valid(w) && v !in w.vendors
    requires Closed(a) && a.Keys == w.vendors.Keys + {v}
    ensures var r := w.(vendors := a, manufacturersOf := w.manufacturersOf[v := []]);
            && Valid(r)
            && (Consistent(w) ==> Consistent(r))
            && (NoDuplicates(w) ==> NoDuplicates(r))
  {
    var r := w.(vendors := a, manufacturersOf := w.manufacturersOf[v := []]);
    assert forall m :: m in w.vendorsOf ==> v !in w.vendorsOf[m];
    assert Distinct(r.manufacturersOf[v]);
  }

  /** A freshly allocated node is unlinked and, in a closed arena, nobody
      points at its handle yet, so allocation keeps link symmetry. */
  lemma AllocateKeepsSymmetric(a: Arena, name: string, unused: Handle)
    requires Closed(a) && Symmetric(a) && unused !in a
    ensures Symmetric(Allocate(a, name, unused))
  {
    var b := Allocate(a, name, unused);
    forall x, y | x in b && y in b
      ensures b[x].next == Some(y) <==> b[y].prev == Some(x)
    {
      if x != unused && y != unused {
        assert a[x].next == Some(y) <==> a[y].prev == Some(x);
      }
    }
  }

  /** Find-or-create keeps link symmetry of the whole arena: a hit changes
      nothing, and a miss inserts an unlinked node after `other`. */
  lemma FindOrCreateKeepsSymmetric(a: Arena, name: string, other: Option<Handle>, unused: Handle)
    requires Closed(a) && Symmetric(a) && Live(a, other) && unused !in a
    ensures Symmetric(FindOrCreate(a, name, other, unused).0)
  {
    if other.None? || SearchChain(a, other.value, name).None? {
      AllocateKeepsSymmetric(a, name, unused);
      if other.Some? {
        var b := Allocate(a, name, unused);
        assert FindOrCreate(a, name, other, unused).0 == AddNodeToChain(b, other.value, unused);
        AddPreservesSymmetry(b, other.value, unused);
      }
    }
  }

  /** ChainedManufacturer keeps the heap invariant, link symmetry of the
      manufacturer arena, the symmetry of the association and the absence
      of duplicates. */
  lemma ChainedManufacturerKeepsInvariants(w: World, name: string, other: Option<Handle>, unused: Handle)
    requires Valid(w) && Live(w.manufacturers, other) && unused !in w.manufacturers
    ensures var r := ChainedManufacturer(w, name, other, unused).0;
            && Valid(r)
            && (Symmetric(w.manufacturers) ==> Symmetric(r.manufacturers))
            && (Consistent(w) ==> Consistent(r))
            && (NoDuplicates(w) ==> NoDuplicates(r))
  {
    if Symmetric(w.manufacturers) {
      FindOrCreateKeepsSymmetric(w.manufacturers, name, other, unused);
    }
    var (a, m) := FindOrCreate(w.manufacturers, name, other, unused);
    if m !in w.manufacturers {
      NewManufacturerKeepsInvariants(w, a, m);
    }
  }

  /** ChainedVendor keeps the heap invariant, link symmetry of the vendor
      arena, the symmetry of the association and the absence of duplicates. */
  lemma ChainedVendorKeepsInvariants(w: World, name: string, other: Option<Handle>, unused: Handle)
    requires Valid(w) && Live(w.vendors, other) && unused !in w.vendors
    ensures var r := ChainedVendor(w, name, other, unused).0;
            && Valid(r)
            && (Symmetric(w.vendors) ==> Symmetric(r.vendors))
            && (Consistent(w) ==> Consistent(r))
            && (NoDuplicates(w) ==> NoDuplicates(r))
  {
    if Symmetric(w.vendors) {
      FindOrCreateKeepsSymmetric(w.vendors, name, other, unused);
    }
    var (a, v) := FindOrCreate(w.vendors, name, other, unused);
    if v !in w.vendors {
      NewVendorKeepsInvariants(w, a, v);
    }
  }

  /** After AddVendor on a symmetric association, `m` lists `v`, `v` lists
      `m`, and the association stays symmetric. */
  lemma AddVendorSymmetric(w: World, m: Handle, v: Handle)
    requires Consistent(w) && m in w.vendorsOf && v in w.manufacturersOf
    ensures var r := AddVendor(w, m, v);
            HasVendor(r, m, v) && m in r.manufacturersOf[v] && Consistent(r)
  {
    var r := AddVendor(w, m, v);
    assert v in w.vendorsOf[m] <==> m in w.manufacturersOf[v];
    forall m', v' | m' in r.vendorsOf && v' in r.manufacturersOf
      ensures v' in r.vendorsOf[m'] <==> m' in r.manufacturersOf[v']
    {
      assert v' in w.vendorsOf[m'] <==> m' in w.manufacturersOf[v'];
    }
  }

  /** AddVendor never puts an entry into a list twice, and keeps the heap invariant. */
  lemma AddVendorNoDuplicates(w: World, m: Handle, v: Handle)
    requires m in w.vendorsOf && v in w.manufacturersOf
    ensures NoDuplicates(w) ==> NoDuplicates(AddVendor(w, m, v))
    ensures Valid(w) && m in w.manufacturers && v in w.vendors ==> Valid(AddVendor(w, m, v))
  {
    var r := AddVendor(w, m, v);
    if NoDuplicates(w) {
      assert Distinct(r.vendorsOf[m]);
      assert Distinct(r.manufacturersOf[v]);
    }
  }

  /** AddManufacturer never puts an entry into a list twice, and keeps the heap invariant. */
  lemma AddManufacturerNoDuplicates(w: World, v: Handle, m: Handle)
    requires m in w.vendorsOf && v in w.manufacturersOf
    ensures NoDuplicates(w) ==> NoDuplicates(AddManufacturer(w, v, m))
    ensures Valid(w) && m in w.manufacturers && v in w.vendors ==> Valid(AddManufacturer(w, v, m))
  {
    var r := AddManufacturer(w, v, m);
    if NoDuplicates(w) {
      assert Distinct(r.vendorsOf[m]);
      assert Distinct(r.manufacturersOf[v]);
    }
  }

  /** On a symmetric association it does not matter which side starts:
      `m.AddVendor(v)` and `v.AddManufacturer(m)` leave the same state. */
  lemma AssociationFromEitherSide(w: World, m: Handle, v: Handle)
    requires Consistent(w) && m in w.vendorsOf && v in w.manufacturersOf
    ensures AddVendor(w, m, v) == AddManufacturer(w, v, m)
  {
    assert v in w.vendorsOf[m] <==> m in w.manufacturersOf[v];
    var r1, r2 := AddVendor(w, m, v), AddManufacturer(w, v, m);
    assert r1.vendorsOf == r2.vendorsOf;
    assert r1.manufacturersOf == r2.manufacturersOf;
  }

  /** After AddManufacturer on a symmetric association, `v` lists `m`, `m`
      lists `v`, the association stays symmetric, and no list gains a duplicate. */
  lemma AddManufacturerSymmetric(w: World, v: Handle, m: Handle)
    requires Consistent(w) && m in w.vendorsOf && v in w.manufacturersOf
    ensures var r := AddManufacturer(w, v, m);
            && m in r.manufacturersOf[v] && HasVendor(r, m, v) && Consistent(r)
            && (NoDuplicates(w) ==> NoDuplicates(r))
  {
    AssociationFromEitherSide(w, m, v);
    AddVendorSymmetric(w, m, v);
    AddVendorNoDuplicates(w, m, v);
  }

  /** AddVendor is idempotent: a second call with the same pair changes nothing. */
  lemma AddVendorIdempotent(w: World, m: Handle, v: Handle)
    requires m in w.vendorsOf && v in w.manufacturersOf
    ensures AddVendor(AddVendor(w, m, v), m, v) == AddVendor(w, m, v)
  {
  }

  /** Vendor.Dispose on a member of a vendor chain of two or more removes it
      from the chain and leaves the rest a chain in the old order. */
  lemma DisposeRemoves(w: World, s: seq<Handle>, i: nat)
    requires Closed(w.vendors) && IsChain(w.vendors, s) && i < |s| && |s| >= 2
    ensures Unlinked(Dispose(w, s[i]).vendors[s[i]])
    ensures IsChain(Dispose(w, s[i]).vendors, s[..i] + s[i + 1..])
  {
    UnlinkRemoves(w.vendors, s, i);
  }
}
