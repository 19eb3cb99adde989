/**
 The intrusive doubly-linked chain of `Chainable`.

 The C# heap is modelled as an arena: a map from handles (object addresses)
 to node records. A node carries its `NodeId` and its two adjacency
 references; `None` is `null`. Every operation is a pure function from the
 arena before the call to the arena after it.
 */
module Chain {
  import opened Wrappers

  /** The address of a node in the arena; stands in for a C# object reference. */
  type Handle = nat

  /** A chain participant: its identifier and its `prevNode` / `nextNode` references. */
  datatype Node = Node(id: string, prev: Option<Handle>, next: Option<Handle>)

  /** The heap of nodes of one concrete node type. */
  type Arena = map<Handle, Node>

  /** Which adjacency reference a traversal follows. */
  datatype Direction = Forward | Backward

  /** The reference a traversal in direction `d` follows out of `n`. */
  function Link(n: Node, d: Direction): Option<Handle>
  {
    match d
    case Forward => n.next
    case Backward => n.prev
  }

  /** A reference is either null or names a node of the arena. */
  predicate Live(a: Arena, r: Option<Handle>)
  {
    r.Some? ==> r.value in a
  }

  /** Every reference held by every node is live: the arena image of C#'s
      guarantee that a non-null reference always denotes an object. */
  ghost predicate Closed(a: Arena)
  {
    forall h :: h in a ==> Live(a, a[h].prev) && Live(a, a[h].next)
  }

  /** A node with both references null: a single-element chain. */
  predicate Unlinked(n: Node)
  {
    n.prev.None? && n.next.None?
  }

  /** Link symmetry: `x.next == y` exactly when `y.prev == x`. */
  ghost predicate Symmetric(a: Arena)
  {
    forall x, y :: x in a && y in a ==> (a[x].next == Some(y) <==> a[y].prev == Some(x))
  }

  /** No handle occurs twice in `s`. */
  ghost predicate Distinct(s: seq<Handle>)
  {
    forall p, q :: 0 <= p < q < |s| ==> s[p] != s[q]
  }

  /** `s` is a whole, acyclic, symmetric chain of `a`, listed head to tail:
      the head has no predecessor, the tail no successor, consecutive
      members are linked to each other in both directions, and no member
      repeats. */
  ghost predicate IsChain(a: Arena, s: seq<Handle>)
  {
    && |s| > 0
    && (forall k :: 0 <= k < |s| ==> s[k] in a)
    && Distinct(s)
    && a[s[0]].prev == None
    && a[s[|s| - 1]].next == None
    && (forall k :: 0 <= k < |s| - 1 ==> a[s[k]].next == Some(s[k + 1]))
    && (forall k :: 0 <= k < |s| - 1 ==> a[s[k + 1]].prev == Some(s[k]))
  }

  /** No two members of the chain `s` share an identifier. */
  ghost predicate UniqueIds(a: Arena, s: seq<Handle>)
    requires forall k :: 0 <= k < |s| ==> s[k] in a
  {
    forall p, q :: 0 <= p < q < |s| ==> a[s[p]].id != a[s[q]].id
  }

  /** `s` read back to front. */
  function Reverse(s: seq<Handle>): (r: seq<Handle>)
    ensures |r| == |s|
    ensures forall k :: 0 <= k < |s| ==> r[k] == s[|s| - 1 - k]
  {
    if |s| == 0 then [] else [s[|s| - 1]] + Reverse(s[..|s| - 1])
  }

  /** HookUpNodes: makes `right` the successor of `left` and `left` the
      predecessor of `right`, each only when it is non-null. No other
      reference of any node changes. */
  function HookUpNodes(a: Arena, left: Option<Handle>, right: Option<Handle>): (r: Arena)
    requires Live(a, left) && Live(a, right)
    ensures r.Keys == a.Keys
    ensures forall k :: k in a ==> r[k].id == a[k].id
    ensures left.Some? ==> r[left.value].next == right
    ensures right.Some? ==> r[right.value].prev == left
    ensures left.Some? && left != right ==> r[left.value].prev == a[left.value].prev
    ensures right.Some? && left != right ==> r[right.value].next == a[right.value].next
    ensures forall k :: k in a && Some(k) != left && Some(k) != right ==> r[k] == a[k]
    ensures Closed(a) ==> Closed(r)
  {
    var a1 := if left.Some? then a[left.value := a[left.value].(next := right)] else a;
    if right.Some? then a1[right.value := a1[right.value].(prev := left)] else a1
  }

  /** AddNodeToChain: inserts `node` directly after `h`. With `R` the old
      successor of `h`, afterwards `h.next == node`, `node.prev == h`,
      `node.next == R` and `R.prev == node`. Re-linking a node that is
      already linked is not prevented: its old neighbours keep pointing at it. */
  function AddNodeToChain(a: Arena, h: Handle, node: Handle): (r: Arena)
    requires h in a && node in a && Live(a, a[h].next)
    ensures r.Keys == a.Keys
    ensures forall k :: k in a ==> r[k].id == a[k].id
    ensures node != h && a[h].next != Some(node) ==>
              && r[h].next == Some(node)
              && r[node].prev == Some(h)
              && r[node].next == a[h].next
              && (a[h].next.Some? ==> r[a[h].next.value].prev == Some(node))
    ensures node != h && a[h].next != Some(h) ==> r[h].prev == a[h].prev
    ensures a[h].next.Some? && a[h].next.value != h && a[h].next != Some(node) ==>
              r[a[h].next.value].next == a[a[h].next.value].next
    ensures forall k :: k in a && k != h && k != node && Some(k) != a[h].next ==> r[k] == a[k]
    ensures Closed(a) ==> Closed(r)
  {
    var right := a[h].next;
    var a1 := HookUpNodes(a, Some(h), Some(node));
    HookUpNodes(a1, Some(node), right)
  }

  /** UnlinkFromChain: bridges the old neighbours `L` and `R` of `h` to each
      other and clears both references of `h`. On a node that is already
      unlinked it changes nothing. */
  function UnlinkFromChain(a: Arena, h: Handle): (r: Arena)
    requires h in a && Live(a, a[h].prev) && Live(a, a[h].next)
    ensures r.Keys == a.Keys
    ensures forall k :: k in a ==> r[k].id == a[k].id
    ensures Unlinked(r[h])
    ensures a[h].prev.Some? && a[h].prev != Some(h) ==> r[a[h].prev.value].next == a[h].next
    ensures a[h].next.Some? && a[h].next != Some(h) ==> r[a[h].next.value].prev == a[h].prev
    ensures a[h].prev.Some? && a[h].prev != Some(h) && a[h].prev != a[h].next ==>
              r[a[h].prev.value].prev == a[a[h].prev.value].prev
    ensures a[h].next.Some? && a[h].next != Some(h) && a[h].prev != a[h].next ==>
              r[a[h].next.value].next == a[a[h].next.value].next
    ensures forall k :: k in a && k != h && Some(k) != a[h].prev && Some(k) != a[h].next ==> r[k] == a[k]
    ensures Unlinked(a[h]) ==> r == a
    ensures Closed(a) ==> Closed(r)
  {
    var left := a[h].prev;
    var right := a[h].next;
    var a1 := HookUpNodes(a, left, right);
    a1[h := a1[h].(prev := None, next := None)]
  }

  /** The nodes met by following direction `d` from `cur` until a null
      reference, for at most `fuel` steps. Every step follows one link, and
      unless the fuel ran out the walk stops exactly at a null reference. */
  function Walk(a: Arena, cur: Option<Handle>, d: Direction, fuel: nat): (r: seq<Handle>)
    requires Closed(a) && Live(a, cur)
    ensures |r| <= fuel
    ensures forall k :: 0 <= k < |r| ==> r[k] in a
    ensures cur.None? ==> r == []
    ensures cur.Some? && fuel > 0 ==> |r| > 0 && r[0] == cur.value
    ensures forall k :: 0 <= k < |r| - 1 ==> Link(a[r[k]], d) == Some(r[k + 1])
    ensures 0 < |r| < fuel ==> Link(a[r[|r| - 1]], d) == None
    decreases fuel
  {
    if cur.None? || fuel == 0 then []
    else [cur.value] + Walk(a, Link(a[cur.value], d), d, fuel - 1)
  }

  /** DereferenceForward: the nodes met by following `nextNode`, starting at
      `h.next` rather than at `h` itself. */
  function DereferenceForward(a: Arena, h: Handle): (r: seq<Handle>)
    requires Closed(a) && h in a
    ensures a[h].next.None? ==> r == []
    ensures a[h].next.Some? ==> |r| > 0 && r[0] == a[h].next.value
  {
    assert h in a.Keys;
    Walk(a, a[h].next, Forward, |a|)
  }

  /** DereferenceBackward: the nodes met by following `prevNode`, starting at
      `h.prev` rather than at `h` itself. */
  function DereferenceBackward(a: Arena, h: Handle): (r: seq<Handle>)
    requires Closed(a) && h in a
    ensures a[h].prev.None? ==> r == []
    ensures a[h].prev.Some? ==> |r| > 0 && r[0] == a[h].prev.value
  {
    assert h in a.Keys;
    Walk(a, a[h].prev, Backward, |a|)
  }

  /** GetNodesInChain: `h` first, then the nodes forward, then the nodes backward. */
  function GetNodesInChain(a: Arena, h: Handle): (r: seq<Handle>)
    requires Closed(a) && h in a
    ensures |r| > 0 && r[0] == h
    ensures forall k :: 0 <= k < |r| ==> r[k] in a
    ensures Unlinked(a[h]) ==> r == [h]
  {
    [h] + DereferenceForward(a, h) + DereferenceBackward(a, h)
  }

  /** The position of the first node of `xs` whose identifier is `uid`, or `|xs|` if there is none. */
  function IndexOfId(a: Arena, xs: seq<Handle>, uid: string): (k: nat)
    requires forall j :: 0 <= j < |xs| ==> xs[j] in a
    ensures k <= |xs|
    ensures k < |xs| ==> a[xs[k]].id == uid
    ensures forall j :: 0 <= j < k ==> a[xs[j]].id != uid
  {
    if |xs| == 0 then 0
    else if a[xs[0]].id == uid then 0
    else 1 + IndexOfId(a, xs[1..], uid)
  }

  /** SearchChain: the first node, in `GetNodesInChain` order, whose
      identifier equals `uid`; `None` when no node of the chain has it. */
  function SearchChain(a: Arena, h: Handle, uid: string): (r: Option<Handle>)
    requires Closed(a) && h in a
    ensures var e := GetNodesInChain(a, h);
            r.None? <==> forall k :: 0 <= k < |e| ==> a[e[k]].id != uid
    ensures var e := GetNodesInChain(a, h);
            r.Some? ==> exists k :: 0 <= k < |e| && e[k] == r.value && a[e[k]].id == uid &&
                                    forall j :: 0 <= j < k ==> a[e[j]].id != uid
  {
    var e := GetNodesInChain(a, h);
    var k := IndexOfId(a, e, uid);
    if k < |e| then Some(e[k]) else None
  }
}
