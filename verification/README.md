# Chainable in Dafny

A model of the intrusive doubly-linked chain of ChainableDemo and of the two entity types built on it.

- **Chain.** A `Chainable` node holds a `prevNode` reference, a `nextNode` reference and an identifier, `NodeId`. There is no container object: the chain is just the set of nodes linked to each other.
- **Chain operations.** A node can:
  - insert another node right after itself (`AddNodeToChain`);
  - take itself out of its chain (`UnlinkFromChain`);
  - enumerate its chain, itself first, then forward, then backward (`GetNodesInChain`);
  - search the chain for an identifier, returning the first match (`SearchChain`).
- **Entities.** `Manufacturer` and `Vendor` are chain nodes named by `Name`. Each of them:
  - is found or created inside the chain of an existing entity (`ChainedManufacturer`, `ChainedVendor`);
  - takes part in a many-to-many association. `AddVendor` and `AddManufacturer` call each other, and a `Contains` guard stops the recursion.

## How the heap is modelled

- **Arena.** The C# heap of one node type is an arena, `map<Handle, Node(id, prev, next)>`. An `Option<Handle>` stands for a reference; `None` is `null`.
- **Pure functions.** Every mutating operation is a pure function from the arena before the call to the arena after it.
- **`Closed(a)`.** Every reference in the arena names a node of the arena. This is what C# guarantees for non-null references. Operations that dereference neighbours require it, and every operation preserves it.
- **`IsChain(a, s)`.** A ghost sequence `s` describes a well-formed chain, listed head to tail: no repeats, null at both ends, and consecutive members linked in both directions. The properties about order, completeness, splicing and removal are stated against this abstraction.
- **`Symmetric(a)`.** The global invariant that `x.next == y` holds exactly when `y.prev == x`.
- **Enumeration.** The forward and backward enumerations are walks with a step budget of `|a|`. `ChainLemmas.DistinctBound` shows this budget never cuts a walk short on a well-formed chain.
- **Catalog.** A `World` holds the two arenas and the two association maps: `vendorsOf` is each manufacturer's `Vendors` list, `manufacturersOf` each vendor's `Manufacturers` list.
- **Allocation.** `new Manufacturer(name)` and `new Vendor(name)` take a caller-supplied handle that is not yet in the arena.
- **Identity.** Reference equality, as used by `List.Contains` and `ReferenceEquals`, is handle equality.
- **`NodeId`.** It is the node's `id` field, which `Allocate` sets to the entity's `Name`.
- **`HasVendor`.** It is membership of the vendor in the manufacturer's list, by definition.

The demonstration run in `Program.cs` is replayed step by step in the `Scenario` module, on concrete arenas.

## Model

| member | source | states |
|---|---|---|
| Chain.HookUpNodes | ChainableDemo/ChainableDemo/Chainable.cs:122-133 | a non-null `left` gets `next == right` and a non-null `right` gets `prev == left`; when they differ, each keeps its other reference; no other node changes; identifiers are kept and live references stay live |
| Chain.AddNodeToChain | ChainableDemo/ChainableDemo/Chainable.cs:64-70 | with `R` the old successor of `h`, inserting a node that is neither `h` nor already `R` gives `h.next == node`, `node.prev == h`, `node.next == R` and `R.prev == node`; `h.prev` and `R.next` are kept; no node other than `h`, `node` and `R` changes |
| Chain.UnlinkFromChain | ChainableDemo/ChainableDemo/Chainable.cs:75-84 | `h` ends with both references null; its old neighbours are bridged (`L.next == R`, `R.prev == L`) and keep their other reference; no other node changes; on an already-unlinked node nothing changes |
| Chain.Walk | ChainableDemo/ChainableDemo/Chainable.cs:93-115 | the walk starts at the given reference, each step follows one link in its direction, and if it stops before the budget runs out it stops at a node whose link is null |
| Chain.DereferenceForward | ChainableDemo/ChainableDemo/Chainable.cs:107-115 | the forward walk skips `h` by starting at `h.next`: it is empty when `h.next` is null and otherwise non-empty with `h.next` first |
| Chain.DereferenceBackward | ChainableDemo/ChainableDemo/Chainable.cs:93-101 | the backward walk skips `h` by starting at `h.prev`: it is empty when `h.prev` is null and otherwise non-empty with `h.prev` first |
| Chain.GetNodesInChain | ChainableDemo/ChainableDemo/Chainable.cs:27-41 | the enumeration starts with `h`, contains only nodes of the arena, and is exactly `[h]` on an unlinked node |
| Chain.IndexOfId | ChainableDemo/ChainableDemo/Chainable.cs:50-56 | the position found holds the identifier, and no earlier position does |
| Chain.SearchChain | ChainableDemo/ChainableDemo/Chainable.cs:48-58 | the result is null exactly when no enumerated node has the identifier; otherwise it is the first enumerated node that has it |
| ChainLemmas.DistinctBound | ChainableDemo/ChainableDemo/Chainable.cs:96-113 | a repetition-free sequence of arena handles is no longer than the arena, so the step budget of `|a|` is enough on a chain |
| ChainLemmas.WalkForwardOnChain | ChainableDemo/ChainableDemo/Chainable.cs:107-115 | on a chain, walking forward from member `k` yields exactly the members from `k` to the tail, in order |
| ChainLemmas.WalkBackwardOnChain | ChainableDemo/ChainableDemo/Chainable.cs:93-101 | on a chain, walking backward from member `k - 1` yields exactly the members before `k`, nearest first |
| ChainLemmas.EnumerationOrder | ChainableDemo/ChainableDemo/Chainable.cs:27-41 | from member `i`, the enumeration is `s[i]`, then the members after `i` in order, then the members before `i` from nearest to head |
| ChainLemmas.DereferenceSkipsSelf | ChainableDemo/ChainableDemo/Chainable.cs:93-115 | on a chain, the forward walk from a member is exactly the members after it and the backward walk exactly the members before it, nearest first, so neither meets the member it starts from |
| ChainLemmas.ReversePermutes | ChainableDemo/ChainableDemo/Chainable.cs:37-40 | the backward half lists the same multiset of handles as the prefix it reverses |
| ChainLemmas.EnumerationComplete | ChainableDemo/ChainableDemo/Chainable.cs:27-41 | from any member, the enumeration has the chain's length and lists every member exactly once |
| ChainLemmas.SingletonChain | ChainableDemo/ChainableDemo/Chainable.cs:27-41 | an unlinked node is a one-node chain, and its enumeration is just itself |
| ChainLemmas.SearchOnChain | ChainableDemo/ChainableDemo/Chainable.cs:48-58 | searching from any member of a chain finds a node exactly when some member has the identifier, and a found node is a member with that identifier |
| ChainLemmas.SearchFindsUnique | ChainableDemo/ChainableDemo/Chainable.cs:48-58 | when identifiers are unique in the chain, the search from any member returns the one member that has the identifier |
| ChainLemmas.InsertKeepsDistinct | ChainableDemo/ChainableDemo/Chainable.cs:64-70 | splicing a handle that is not a member into a repetition-free chain sequence keeps it repetition-free |
| ChainLemmas.AddSplices | ChainableDemo/ChainableDemo/Chainable.cs:64-70 | inserting an unlinked non-member after member `i` leaves a well-formed chain: the old sequence with the node spliced in after `s[i]` |
| ChainLemmas.AddPreservesSymmetry | ChainableDemo/ChainableDemo/Chainable.cs:64-70 | inserting an unlinked node after a different node keeps link symmetry of the whole arena |
| ChainLemmas.RelinkLeavesStaleLink | ChainableDemo/ChainableDemo/Chainable.cs:64-70 | re-linking a member that sits two or more places further down the chain leaves its old predecessor pointing forward at it while it points back at the new host, so link symmetry is lost |
| ChainLemmas.InsertBetween | ChainableDemo/ChainableDemo/Chainable.cs:64-70 | inserting into the chain `x, b, c` after `b` gives the chain `x, b, z, c`, with `b` and `c` linked to `z` in both directions |
| ChainLemmas.DropKeepsDistinct | ChainableDemo/ChainableDemo/Chainable.cs:75-84 | removing one member from a repetition-free sequence keeps it repetition-free and drops that member |
| ChainLemmas.UnlinkRemoves | ChainableDemo/ChainableDemo/Chainable.cs:75-84 | unlinking member `i` of a chain of two or more leaves the other members a well-formed chain in the old order, and the removed node unlinked |
| ChainLemmas.UnlinkPreservesSymmetry | ChainableDemo/ChainableDemo/Chainable.cs:75-84 | unlinking a node keeps link symmetry of the whole arena |
| ChainLemmas.UnlinkUndoesAdd | ChainableDemo/ChainableDemo/Chainable.cs:64-84 | inserting an unlinked node after `h`, when `h`'s successor points back at `h`, and then unlinking it again restores the arena exactly |
| ChainLemmas.UnlinkIdempotent | ChainableDemo/ChainableDemo/Chainable.cs:75-84 | unlinking twice leaves the same arena as unlinking once |
| Catalog.NewNode | ChainableDemo/ChainableDemo/Vendor.cs:12-16 | a constructed entity carries its name as identifier and is linked to nothing |
| Catalog.Allocate | ChainableDemo/ChainableDemo/Manufacturer.cs:13-17 | the new entity occupies exactly one new handle, is named and unlinked, and every existing node is unchanged |
| Catalog.FindOrCreate | ChainableDemo/ChainableDemo/Manufacturer.cs:27-33 | the result is named `name`; a search hit returns the found node and leaves the arena unchanged; a miss creates one new node, unlinked when `other` is null and inserted right after `other` otherwise |
| Catalog.ChainedManufacturer | ChainableDemo/ChainableDemo/Manufacturer.cs:25-34 | the returned manufacturer is named `name` and is the node find-or-create yields (the search hit from `other`'s chain, if any); an existing one leaves every part of the state unchanged; a new one starts with an empty `Vendors` list and nothing else but its chain changes |
| Catalog.ChainedVendor | ChainableDemo/ChainableDemo/Vendor.cs:18-27 | the returned vendor is named `name` and is the node find-or-create yields (the search hit from `other`'s chain, if any); an existing one leaves every part of the state unchanged; a new one starts with an empty `Manufacturers` list and nothing else but its chain changes |
| Catalog.Missing | ChainableDemo/ChainableDemo/Vendor.cs:35-40 | the termination measure of the mutual recursion is at most 2 and is 0 exactly when both directions of the pair are recorded |
| Catalog.HasVendor | ChainableDemo/ChainableDemo/Manufacturer.cs:54-57 | the answer is yes exactly when some position of `m`'s `Vendors` list holds `v`; on a symmetric association it agrees with whether `v` lists `m` |
| Catalog.AddVendor | ChainableDemo/ChainableDemo/Manufacturer.cs:40-48 | afterwards `m` has `v`; if it already had `v` nothing changes; otherwise `v` is appended once to `m`'s list and `v` lists `m`; no other list and neither arena changes |
| Catalog.AddManufacturer | ChainableDemo/ChainableDemo/Vendor.cs:33-41 | afterwards `v` lists `m`; if it already did nothing changes; otherwise `m` is appended once to `v`'s list and `m` has `v`; no other list and neither arena changes |
| Catalog.Dispose | ChainableDemo/ChainableDemo/Vendor.cs:45-48 | the vendor ends unlinked, its neighbours are bridged and keep their other reference, and no other vendor changes; an already-unlinked vendor leaves the state unchanged; manufacturers and both association maps are untouched, and the heap invariant is kept |
| CatalogLemmas.ChainFrame | ChainableDemo/ChainableDemo/Manufacturer.cs:30 | allocating a new entity keeps every existing chain a chain, because a chain stays a chain in any arena that agrees on its members |
| CatalogLemmas.SpliceKeepsUniqueIds | ChainableDemo/ChainableDemo/Manufacturer.cs:27-32 | splicing in a node whose name no member carries keeps identifiers unique in the chain |
| CatalogLemmas.FindOrCreateOnChain | ChainableDemo/ChainableDemo/Manufacturer.cs:25-34 | from a member of a chain with unique identifiers, find-or-create leaves a chain with unique identifiers containing the result: the same chain on a hit, the new node spliced in after the member on a miss |
| CatalogLemmas.FindOrCreateFindsExisting | ChainableDemo/ChainableDemo/Vendor.cs:18-27 | in a chain whose identifiers are unique, asking for a name some member already carries returns that member, from whichever member the search starts, and changes nothing |
| CatalogLemmas.FindOrCreateNoDuplicate | ChainableDemo/ChainableDemo/Program.cs:11-13 | in a chain whose identifiers are unique, a second find-or-create for the same name, from any member of the resulting chain, returns the node of the first and adds nothing |
| CatalogLemmas.NewManufacturerKeepsInvariants | ChainableDemo/ChainableDemo/Manufacturer.cs:13-17 | registering a new manufacturer with an empty vendor list keeps the heap invariant, the symmetry of the association and the absence of duplicates |
| CatalogLemmas.NewVendorKeepsInvariants | ChainableDemo/ChainableDemo/Vendor.cs:12-16 | registering a new vendor with an empty manufacturer list keeps the heap invariant, the symmetry of the association and the absence of duplicates |
| CatalogLemmas.AllocateKeepsSymmetric | ChainableDemo/ChainableDemo/Manufacturer.cs:30 | allocating a new entity keeps link symmetry, because the new node is unlinked and no existing reference can name its handle |
| CatalogLemmas.FindOrCreateKeepsSymmetric | ChainableDemo/ChainableDemo/Manufacturer.cs:27-33 | find-or-create keeps link symmetry of the whole arena: a hit changes nothing, and a miss inserts an unlinked node after `other` |
| CatalogLemmas.ChainedManufacturerKeepsInvariants | ChainableDemo/ChainableDemo/Manufacturer.cs:25-34 | find-or-create of a manufacturer keeps the heap invariant, link symmetry of the manufacturer arena, association symmetry and duplicate-freedom |
| CatalogLemmas.ChainedVendorKeepsInvariants | ChainableDemo/ChainableDemo/Vendor.cs:18-27 | find-or-create of a vendor keeps the heap invariant, link symmetry of the vendor arena, association symmetry and duplicate-freedom |
| CatalogLemmas.AddVendorSymmetric | ChainableDemo/ChainableDemo/Manufacturer.cs:40-48 | from a symmetric association, afterwards `m` has `v`, `v` lists `m`, and the association is still symmetric |
| CatalogLemmas.AddVendorNoDuplicates | ChainableDemo/ChainableDemo/Manufacturer.cs:42-46 | no association list gains a repeated entry, and the heap invariant is kept |
| CatalogLemmas.AddManufacturerNoDuplicates | ChainableDemo/ChainableDemo/Vendor.cs:35-40 | from any state, no association list gains a repeated entry, and the heap invariant is kept |
| CatalogLemmas.AssociationFromEitherSide | ChainableDemo/ChainableDemo/Vendor.cs:33-41 | on a symmetric association, `m.AddVendor(v)` and `v.AddManufacturer(m)` produce the same state |
| CatalogLemmas.AddManufacturerSymmetric | ChainableDemo/ChainableDemo/Vendor.cs:33-41 | from a symmetric association, afterwards `v` lists `m`, `m` has `v`, the association is still symmetric, and no list gains a repeated entry |
| CatalogLemmas.AddVendorIdempotent | ChainableDemo/ChainableDemo/Manufacturer.cs:42-45 | a second `AddVendor` with the same pair changes nothing |
| CatalogLemmas.DisposeRemoves | ChainableDemo/ChainableDemo/Vendor.cs:45-48 | disposing a vendor in a chain of two or more removes it from the chain, leaves the others a chain in the old order, and leaves the vendor unlinked |
| Scenario.LoneMiss | ChainableDemo/ChainableDemo/Chainable.cs:48-58 | a search from an unlinked node for an identifier it does not carry finds nothing |
| Scenario.InsertAfterLone | ChainableDemo/ChainableDemo/Manufacturer.cs:27-32 | find-or-create of a new name from a one-node arena yields the two-node chain with the new node second |
| Scenario.DemoMcBurger | ChainableDemo/ChainableDemo/Program.cs:11 | McBurger, created with no chain to join, is a lone unlinked manufacturer with no vendors |
| Scenario.DemoWednesdays | ChainableDemo/ChainableDemo/Program.cs:12 | Wednesdays is created and linked right after McBurger |
| Scenario.DemoOtherMcBurger | ChainableDemo/ChainableDemo/Program.cs:13 | asking for McBurger again, from Wednesdays, returns the first McBurger and leaves the state alone, so the two are the same reference |
| Scenario.DemoCattleCo | ChainableDemo/ChainableDemo/Program.cs:16 | Cattle Co is a lone unlinked vendor with no manufacturers |
| Scenario.DemoFrozenWorms | ChainableDemo/ChainableDemo/Program.cs:17 | Frozen Worms Ltd. is created and linked right after Cattle Co |
| Scenario.DemoMcBurgerCattleCo | ChainableDemo/ChainableDemo/Program.cs:20 | McBurger and Cattle Co record each other |
| Scenario.DemoOtherMcBurgerFrozenWorms | ChainableDemo/ChainableDemo/Program.cs:21 | the association made through the second McBurger reference lands on McBurger itself |
| Scenario.DemoWednesdaysCattleCo | ChainableDemo/ChainableDemo/Program.cs:22-30 | after the last association McBurger has Frozen Worms Ltd., as the demo asserts |
| Scenario.DemoUnlink | ChainableDemo/ChainableDemo/Program.cs:33-34 | after Wednesdays unlinks itself, McBurger's chain enumerates to exactly one node |

## Left out

- `Program.Main` and `Program.Assert`: this demo driver throws exceptions. Its scenario is replayed as the `Scenario` lemmas instead.
- `Manufacturer.Dispose`: its only behaviour is throwing `NotImplementedException`. The `IDisposable` plumbing is left out with it.
- C# generics and the `(T)` casts: each arena holds a single node type, so a cast can never fail.
- `yield` laziness and restartability: an enumeration is a finite sequence, built again on each call.
- Chain.Walk: C# follows links with no bound, so on a cyclic heap the source never terminates. The model stops after `|a|` steps. On a well-formed chain this budget is proved to be enough.
- Chain.AddNodeToChain: the four link effects are stated only when `node` is neither `h` nor `h`'s current successor. In the other cases only the frame and identifiers are stated. The raw writes are modelled as written and not fixed. `ChainLemmas.RelinkLeavesStaleLink` shows the corruption that re-linking an already-linked node causes.
- Catalog.AddVendor: association symmetry after the call is proved only from a symmetric starting state (`CatalogLemmas.AddVendorSymmetric`), because the source never repairs a one-sided entry.
- Catalog.Dispose: a disposed vendor stays in every manufacturer's `Vendors` list. The source does the same.
- Chain.AddNodeToChain: a null `node` is excluded by requiring it to be in the arena. In C#, `AddNodeToChain(null)` sets `this.nextNode` and the old successor's `prevNode` to null, which splits the chain. No caller in the repository passes null.
- Catalog.AddVendor: the vendor must exist, so a null argument is not modelled. In C#, `AddVendor(null)` appends null to `Vendors` and then throws a `NullReferenceException` on the callback. No caller in the repository passes null.
- Catalog.AddManufacturer: the manufacturer must exist, so a null argument is not modelled. In C#, `AddManufacturer(null)` appends null to `Manufacturers` and then throws a `NullReferenceException` on the callback. No caller in the repository passes null.
- Object allocation: the handle of a new entity is a parameter the caller supplies. It must not be in use.
- Threads: the source has no synchronisation, and the model is sequential.
