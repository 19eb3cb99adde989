/**
 The demonstration run: two manufacturers and two vendors are created
 through find-or-create, associated, and one manufacturer is unlinked.
 Each step is checked against the concrete heap it must produce.
 */
module Scenario {
  import opened Wrappers
  import opened Chain
  import opened ChainLemmas
  import opened Catalog
  import opened CatalogLemmas

  /** The empty heap the demonstration starts from. */
  const Empty := World(map[], map[], map[], map[])

  /** McBurger (handle 0) alone. */
  const Makers1: Arena := map[0 := Node("McBurger", None, None)]

  /** The manufacturer chain McBurger (0), Wednesdays (1). */
  const Makers2: Arena := map[0 := Node("McBurger", None, Some(1)), 1 := Node("Wednesdays", Some(0), None)]

  /** Cattle Co (handle 0) alone. */
  const Vendors1: Arena := map[0 := Node("Cattle Co", None, None)]

  /** The vendor chain Cattle Co (0), Frozen Worms Ltd. (1). */
  const Vendors2: Arena := map[0 := Node("Cattle Co", None, Some(1)), 1 := Node("Frozen Worms Ltd.", Some(0), None)]

  // WorldN is the state after step N of the demonstration run; the third
  // step finds the existing McBurger and leaves World2 in place.
  const World1 := World(Makers1, map[], map[0 := []], map[])
  const World2 := World(Makers2, map[], map[0 := [], 1 := []], map[])
  const World4 := World(Makers2, Vendors1, map[0 := [], 1 := []], map[0 := []])
  const World5 := World(Makers2, Vendors2, map[0 := [], 1 := []], map[0 := [], 1 := []])
  const World6 := World(Makers2, Vendors2, map[0 := [0], 1 := []], map[0 := [0], 1 := []])
  const World7 := World(Makers2, Vendors2, map[0 := [0, 1], 1 := []], map[0 := [0], 1 := [0]])

  /** McBurger supplied by Cattle Co and Frozen Worms Ltd., Wednesdays by Cattle Co. */
  const World8 := World(Makers2, Vendors2, map[0 := [0, 1], 1 := [0]], map[0 := [0, 1], 1 := [0]])

  /** Searching from an unlinked node for an identifier it does not carry finds nothing. */
  lemma LoneMiss(a: Arena, h: Handle, uid: string)
    requires Closed(a) && h in a && Unlinked(a[h]) && a[h].id != uid
    ensures SearchChain(a, h, uid) == None
  {
    SingletonChain(a, h);
    SearchOnChain(a, [h], 0, uid);
  }

  /** Find-or-create of a new name from the only node of a one-node arena
      yields the two-node chain with the new node second. */
  lemma InsertAfterLone(a: Arena, h: Handle, id: string, name: string, u: Handle)
    requires a == map[h := Node(id, None, None)] && u != h && id != name
    ensures FindOrCreate(a, name, Some(h), u) ==
            (map[h := Node(id, None, Some(u)), u := Node(name, Some(h), None)], u)
  {
    LoneMiss(a, h, name);
    var t := map[h := Node(id, None, Some(u)), u := Node(name, Some(h), None)];
    var b := Allocate(a, name, u);
    assert b == map[h := Node(id, None, None), u := Node(name, None, None)] by {
      assert b.Keys == {h, u};
    }
    var b1 := HookUpNodes(b, Some(h), Some(u));
    assert b1 == t by {
      assert b1.Keys == t.Keys && b1[h] == t[h] && b1[u] == t[u];
    }
    assert HookUpNodes(b1, Some(u), None) == t by {
      var b2 := HookUpNodes(b1, Some(u), None);
      assert b2.Keys == t.Keys && b2[h] == t[h] && b2[u] == t[u];
    }
    assert AddNodeToChain(b, h, u) == t;
  }

  /** McBurger, created with no chain to join, is a lone unlinked node. */
  lemma DemoMcBurger()
    ensures ChainedManufacturer(Empty, "McBurger", None, 0) == (World1, 0)
  {
    assert Allocate(Empty.manufacturers, "McBurger", 0) == Makers1;
  }

  /** Wednesdays is not found from McBurger, so it is created and linked after McBurger. */
  lemma DemoWednesdays()
    ensures ChainedManufacturer(World1, "Wednesdays", Some(0), 1) == (World2, 1)
  {
    LoneMiss(Makers1, 0, "Wednesdays");
    InsertAfterLone(Makers1, 0, "McBurger", "Wednesdays", 1);
  }

  /** Asking for "McBurger" again, from Wednesdays, returns the first
      McBurger and leaves the heap as it was. */
  lemma DemoOtherMcBurger()
    ensures ChainedManufacturer(World2, "McBurger", Some(1), 2) == (World2, 0)
  {
    assert IsChain(Makers2, [0, 1]);
    FindOrCreateFindsExisting(Makers2, [0, 1], 1, 0, "McBurger", 2);
  }

  /** Cattle Co, created with no chain to join, is a lone unlinked node. */
  lemma DemoCattleCo()
    ensures ChainedVendor(World2, "Cattle Co", None, 0) == (World4, 0)
  {
    assert Allocate(World2.vendors, "Cattle Co", 0) == Vendors1;
  }

  /** Frozen Worms Ltd. is not found from Cattle Co, so it is created and linked after Cattle Co. */
  lemma DemoFrozenWorms()
    ensures ChainedVendor(World4, "Frozen Worms Ltd.", Some(0), 1) == (World5, 1)
  {
    LoneMiss(Vendors1, 0, "Frozen Worms Ltd.");
    InsertAfterLone(Vendors1, 0, "Cattle Co", "Frozen Worms Ltd.", 1);
  }

  /** `McBurger.AddVendor(CattleCo)` records the pair on both sides. */
  lemma DemoMcBurgerCattleCo()
    ensures AddVendor(World5, 0, 0) == World6
  {
    var r := AddVendor(World5, 0, 0);
    assert r.vendorsOf == World6.vendorsOf by {
      assert [] + [0] == [0];
      assert r.vendorsOf.Keys == {0, 1} && r.vendorsOf[0] == [0] && r.vendorsOf[1] == [];
    }
    assert r.manufacturersOf == World6.manufacturersOf by {
      assert [] + [0] == [0];
      assert r.manufacturersOf.Keys == {0, 1} && r.manufacturersOf[0] == [0] && r.manufacturersOf[1] == [];
    }
  }

  /** `OtherMcBurger.AddVendor(FrozenWormsLtd)` reaches McBurger itself. */
  lemma DemoOtherMcBurgerFrozenWorms()
    ensures AddVendor(World6, 0, 1) == World7
  {
    var r := AddVendor(World6, 0, 1);
    assert r.vendorsOf == World7.vendorsOf by {
      assert [0] + [1] == [0, 1];
      assert r.vendorsOf.Keys == {0, 1} && r.vendorsOf[0] == [0, 1] && r.vendorsOf[1] == [];
    }
    assert r.manufacturersOf == World7.manufacturersOf by {
      assert [] + [0] == [0];
      assert r.manufacturersOf.Keys == {0, 1} && r.manufacturersOf[0] == [0] && r.manufacturersOf[1] == [0];
    }
  }

  /** `Wednesdays.AddVendor(CattleCo)` gives Cattle Co its second manufacturer,
      and McBurger now has Frozen Worms Ltd. */
  lemma DemoWednesdaysCattleCo()
    ensures AddVendor(World7, 1, 0) == World8
    ensures HasVendor(World8, 0, 1)
  {
    var r := AddVendor(World7, 1, 0);
    assert r.vendorsOf == World8.vendorsOf by {
      assert [] + [0] == [0];
      assert r.vendorsOf.Keys == {0, 1} && r.vendorsOf[0] == [0, 1] && r.vendorsOf[1] == [0];
    }
    assert r.manufacturersOf == World8.manufacturersOf by {
      assert [0] + [1] == [0, 1];
      assert r.manufacturersOf.Keys == {0, 1} && r.manufacturersOf[0] == [0, 1] && r.manufacturersOf[1] == [0];
    }
  }

  /** Unlinking Wednesdays leaves McBurger the only node of its chain. */
  lemma DemoUnlink()
    ensures |GetNodesInChain(UnlinkFromChain(World8.manufacturers, 1), 0)| == 1
  {
    assert IsChain(Makers2, [0, 1]);
    UnlinkRemoves(Makers2, [0, 1], 1);
    assert [0, 1][..1] + [0, 1][2..] == [0];
    EnumerationComplete(UnlinkFromChain(Makers2, 1), [0], 0);
  }
}
