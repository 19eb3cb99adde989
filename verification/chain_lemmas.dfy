/**
 Properties of the chain operations on well-formed chains: enumeration
 order and completeness, insertion as a splice, unlinking as a removal,
 preservation of link symmetry, and first-match search.
 */
module ChainLemmas {
  import opened Wrappers
  import opened Chain

  /** A duplicate-free sequence of arena handles is no longer than the arena,
      so a walk with fuel `|a|` never runs short on a chain. */
  lemma {:induction false} DistinctBound(s: seq<Handle>, keys: set<Handle>)
    requires Distinct(s)
    requires forall k :: 0 <= k < |s| ==> s[k] in keys
    ensures |s| <= |keys|
  {
    if |s| > 0 {
      assert forall k :: 0 <= k < |s| - 1 ==> s[1..][k] == s[k + 1];
      DistinctBound(s[1..], keys - {s[0]});
    }
  }

  /** Following `nextNode` from member `k` of a chain meets exactly the
      members from `k` to the tail. */
  lemma {:induction false} WalkForwardOnChain(a: Arena, s: seq<Handle>, k: nat, fuel: nat)
    requires Closed(a) && IsChain(a, s)
    requires k <= |s| && fuel >= |s| - k
    ensures Walk(a, if k < |s| then Some(s[k]) else None, Forward, fuel) == s[k..]
    decreases |s| - k
  {
    if k < |s| {
      var next := if k + 1 < |s| then Some(s[k + 1]) else None;
      assert a[s[k]].next == next;
      WalkForwardOnChain(a, s, k + 1, fuel - 1);
    }
  }

  /** Following `prevNode` from member `k - 1` of a chain meets exactly the
      members before `k`, nearest first. */
  lemma {:induction false} WalkBackwardOnChain(a: Arena, s: seq<Handle>, k: nat, fuel: nat)
    requires Closed(a) && IsChain(a, s)
    requires k <= |s| && fuel >= k
    ensures Walk(a, if k > 0 then Some(s[k - 1]) else None, Backward, fuel) == Reverse(s[..k])
    decreases k
  {
    if k > 0 {
      var prev := if k > 1 then Some(s[k - 2]) else None;
      assert a[s[k - 1]].prev == prev;
      WalkBackwardOnChain(a, s, k - 1, fuel - 1);
      assert s[..k][..k - 1] == s[..k - 1];
    }
  }

  /** GetNodesInChain from the member at position `i` yields that member,
      then the members after it in order, then the members before it
      nearest first. */
  lemma EnumerationOrder(a: Arena, s: seq<Handle>, i: nat)
    requires Closed(a) && IsChain(a, s) && i < |s|
    ensures GetNodesInChain(a, s[i]) == [s[i]] + s[i + 1..] + Reverse(s[..i])
  {
    DistinctBound(s, a.Keys);
    WalkForwardOnChain(a, s, i + 1, |a|);
    WalkBackwardOnChain(a, s, i, |a|);
  }

  /** On a chain, DereferenceForward from a member yields the members after
      it and DereferenceBackward the members before it, nearest first; so
      neither walk meets the member it starts from. */
  lemma DereferenceSkipsSelf(a: Arena, s: seq<Handle>, i: nat)
    requires Closed(a) && IsChain(a, s) && i < |s|
    ensures DereferenceForward(a, s[i]) == s[i + 1..]
    ensures DereferenceBackward(a, s[i]) == Reverse(s[..i])
    ensures s[i] !in DereferenceForward(a, s[i]) && s[i] !in DereferenceBackward(a, s[i])
  {
    DistinctBound(s, a.Keys);
    WalkForwardOnChain(a, s, i + 1, |a|);
    WalkBackwardOnChain(a, s, i, |a|);
    var back := Reverse(s[..i]);
    forall k | 0 <= k < |back| ensures back[k] != s[i] {
      assert back[k] == s[i - 1 - k];
    }
  }

  /** Each member of a duplicate-free sequence occurs in it exactly once. */
  lemma {:induction false} DistinctCounts(s: seq<Handle>)
    requires Distinct(s)
    ensures forall x :: multiset(s)[x] == if x in s then 1 else 0
  {
    if |s| > 0 {
      assert s == [s[0]] + s[1..];
      assert forall k :: 0 <= k < |s| - 1 ==> s[1..][k] == s[k + 1];
      DistinctCounts(s[1..]);
      assert s[0] !in s[1..];
    }
  }

  /** Reversal keeps every element and its count. */
  lemma {:induction false} ReversePermutes(s: seq<Handle>)
    ensures multiset(Reverse(s)) == multiset(s)
  {
    if |s| > 0 {
      ReversePermutes(s[..|s| - 1]);
      assert s == s[..|s| - 1] + [s[|s| - 1]];
    }
  }

  /** On a well-formed chain, GetNodesInChain from any member yields every
      member exactly once and nothing else. */
  lemma EnumerationComplete(a: Arena, s: seq<Handle>, i: nat)
    requires Closed(a) && IsChain(a, s) && i < |s|
    ensures var e := GetNodesInChain(a, s[i]);
            |e| == |s| && forall x :: multiset(e)[x] == if x in s then 1 else 0
  {
    EnumerationOrder(a, s, i);
    ReversePermutes(s[..i]);
    assert s == s[..i] + [s[i]] + s[i + 1..];
    assert multiset(GetNodesInChain(a, s[i])) == multiset(s);
    DistinctCounts(s);
  }

  /** A node that is not linked enumerates as itself alone. */
  lemma SingletonChain(a: Arena, h: Handle)
    requires Closed(a) && h in a && Unlinked(a[h])
    ensures IsChain(a, [h])
    ensures GetNodesInChain(a, h) == [h]
  {
  }

  /** SearchChain from a member of a chain succeeds exactly when some member
      carries `uid`, and then returns a member that carries it. */
  lemma SearchOnChain(a: Arena, s: seq<Handle>, i: nat, uid: string)
    requires Closed(a) && IsChain(a, s) && i < |s|
    ensures SearchChain(a, s[i], uid).Some? <==> exists x :: x in s && a[x].id == uid
    ensures SearchChain(a, s[i], uid).Some? ==>
              SearchChain(a, s[i], uid).value in s && a[SearchChain(a, s[i], uid).value].id == uid
  {
    var e := GetNodesInChain(a, s[i]);
    EnumerationComplete(a, s, i);
    assert forall x :: x in e <==> x in s by {
      forall x ensures x in e <==> x in s {
        assert x in e <==> multiset(e)[x] > 0;
      }
    }
  }

  /** With unique identifiers, SearchChain from any member returns the one
      member that carries `uid`. */
  lemma SearchFindsUnique(a: Arena, s: seq<Handle>, i: nat, x: Handle, uid: string)
    requires Closed(a) && IsChain(a, s) && UniqueIds(a, s) && i < |s|
    requires x in s && a[x].id == uid
    ensures SearchChain(a, s[i], uid) == Some(x)
  {
    SearchOnChain(a, s, i, uid);
  }

  /** Inserting a new element into a duplicate-free sequence keeps it duplicate-free. */
  lemma InsertKeepsDistinct(s: seq<Handle>, i: nat, n: Handle)
    requires Distinct(s) && i < |s| && n !in s
    ensures Distinct(s[..i + 1] + [n] + s[i + 1..])
  {
    var t := s[..i + 1] + [n] + s[i + 1..];
    forall p, q | 0 <= p < q < |t| ensures t[p] != t[q] {
      if p == i + 1 {
        assert t[q] == s[q - 1];
      } else if q == i + 1 {
        assert t[p] == s[p];
      } else {
        var p' := if p <= i then p else p - 1;
        var q' := if q <= i then q else q - 1;
        assert t[p] == s[p'] && t[q] == s[q'];
      }
    }
  }

  /** After inserting `n` after member `i`, consecutive elements of the
      spliced sequence are linked to each other in both directions. */
  lemma AddLinks(a: Arena, s: seq<Handle>, i: nat, n: Handle)
    requires Closed(a) && IsChain(a, s) && i < |s|
    requires n in a && n !in s && Unlinked(a[n])
    ensures var r := AddNodeToChain(a, s[i], n);
            var t := s[..i + 1] + [n] + s[i + 1..];
            forall k :: 0 <= k < |t| - 1 ==> r[t[k]].next == Some(t[k + 1]) && r[t[k + 1]].prev == Some(t[k])
  {
    var r := AddNodeToChain(a, s[i], n);
    var t := s[..i + 1] + [n] + s[i + 1..];
    assert a[s[i]].next == if i + 1 < |s| then Some(s[i + 1]) else None;
    forall k | 0 <= k < |t| - 1
      ensures r[t[k]].next == Some(t[k + 1]) && r[t[k + 1]].prev == Some(t[k])
    {
      if k < i {
        assert t[k] == s[k] && t[k + 1] == s[k + 1];
      } else if k == i {
        assert t[k] == s[i] && t[k + 1] == n;
      } else if k == i + 1 {
        assert t[k] == n && t[k + 1] == s[i + 1];
      } else {
        assert t[k] == s[k - 1] && t[k + 1] == s[k];
      }
    }
  }

  /** After inserting `n` after member `i`, the head still has no
      predecessor and the last element of the spliced sequence no successor. */
  lemma AddEnds(a: Arena, s: seq<Handle>, i: nat, n: Handle)
    requires Closed(a) && IsChain(a, s) && i < |s|
    requires n in a && n !in s && Unlinked(a[n])
    ensures var r := AddNodeToChain(a, s[i], n);
            && r[s[0]].prev == None
            && (i == |s| - 1 ==> r[n].next == None)
            && (i < |s| - 1 ==> r[s[|s| - 1]].next == None)
  {
    var r := AddNodeToChain(a, s[i], n);
    var right := a[s[i]].next;
    assert right == if i + 1 < |s| then Some(s[i + 1]) else None;
    if i == 0 {
      assert right != Some(s[0]);
    } else {
      assert s[0] != s[i] && Some(s[0]) != right;
    }
    if i < |s| - 1 {
      var last := s[|s| - 1];
      if i + 1 < |s| - 1 {
        assert last != s[i] && Some(last) != right;
      } else {
        assert right == Some(last) && last != s[i];
      }
    }
  }

  /** AddNodeToChain with an unlinked node that is not yet in the chain
      splices it in directly after member `i`; the result is again a chain. */
  lemma AddSplices(a: Arena, s: seq<Handle>, i: nat, n: Handle)
    requires Closed(a) && IsChain(a, s) && i < |s|
    requires n in a && n !in s && Unlinked(a[n])
    ensures IsChain(AddNodeToChain(a, s[i], n), s[..i + 1] + [n] + s[i + 1..])
  {
    var r := AddNodeToChain(a, s[i], n);
    var t := s[..i + 1] + [n] + s[i + 1..];
    AddLinks(a, s, i, n);
    AddEnds(a, s, i, n);
    InsertKeepsDistinct(s, i, n);
    forall k | 0 <= k < |t| ensures t[k] in r {
      if k <= i {
        assert t[k] == s[k];
      } else if k > i + 1 {
        assert t[k] == s[k - 1];
      }
    }
    assert t[0] == s[0];
    assert t[|t| - 1] == if i == |s| - 1 then n else s[|s| - 1];
  }

  /** Link symmetry survives AddNodeToChain with an unlinked node other than the host. */
  lemma AddPreservesSymmetry(a: Arena, h: Handle, n: Handle)
    requires Closed(a) && Symmetric(a)
    requires h in a && n in a && n != h && Unlinked(a[n])
    ensures Symmetric(AddNodeToChain(a, h, n))
  {
    var r := AddNodeToChain(a, h, n);
    var right := a[h].next;
    forall x, y | x in r && y in r
      ensures r[x].next == Some(y) <==> r[y].prev == Some(x)
    {
      assert a[x].next == Some(y) <==> a[y].prev == Some(x);
      if right.Some? {
        assert a[right.value].prev == Some(h);
      }
    }
  }

  /** Dropping one element of a duplicate-free sequence keeps it duplicate-free. */
  lemma DropKeepsDistinct(s: seq<Handle>, i: nat)
    requires Distinct(s) && i < |s|
    ensures Distinct(s[..i] + s[i + 1..])
  {
    var t := s[..i] + s[i + 1..];
    forall p, q | 0 <= p < q < |t| ensures t[p] != t[q] {
      var p' := if p < i then p else p + 1;
      var q' := if q < i then q else q + 1;
      assert t[p] == s[p'] && t[q] == s[q'];
    }
  }

  /** After unlinking member `i`, consecutive survivors are linked to each
      other in both directions. */
  lemma UnlinkBridges(a: Arena, s: seq<Handle>, i: nat)
    requires Closed(a) && IsChain(a, s) && i < |s| && |s| >= 2
    ensures var r := UnlinkFromChain(a, s[i]);
            var t := s[..i] + s[i + 1..];
            forall k :: 0 <= k < |t| - 1 ==> r[t[k]].next == Some(t[k + 1]) && r[t[k + 1]].prev == Some(t[k])
  {
    var r := UnlinkFromChain(a, s[i]);
    var t := s[..i] + s[i + 1..];
    assert a[s[i]].next == if i + 1 < |s| then Some(s[i + 1]) else None;
    assert a[s[i]].prev == if i > 0 then Some(s[i - 1]) else None;
    forall k | 0 <= k < |t| - 1
      ensures r[t[k]].next == Some(t[k + 1]) && r[t[k + 1]].prev == Some(t[k])
    {
      if k + 1 < i {
        assert t[k] == s[k] && t[k + 1] == s[k + 1];
      } else if k + 1 == i {
        assert t[k] == s[k] && t[k + 1] == s[k + 2];
      } else {
        assert t[k] == s[k + 1] && t[k + 1] == s[k + 2];
      }
    }
  }

  /** After unlinking member `i`, the first and last survivors have no
      predecessor and no successor respectively. */
  lemma UnlinkEnds(a: Arena, s: seq<Handle>, i: nat)
    requires Closed(a) && IsChain(a, s) && i < |s| && |s| >= 2
    ensures var r := UnlinkFromChain(a, s[i]);
            && r[if i == 0 then s[1] else s[0]].prev == None
            && r[if i == |s| - 1 then s[|s| - 2] else s[|s| - 1]].next == None
  {
    var left, right := a[s[i]].prev, a[s[i]].next;
    assert right == if i + 1 < |s| then Some(s[i + 1]) else None;
    assert left == if i > 0 then Some(s[i - 1]) else None;
    if i > 0 {
      assert s[0] != s[i];
    }
    if i < |s| - 1 {
      assert s[|s| - 1] != s[i];
    }
  }

  /** UnlinkFromChain on a member of a chain of two or more leaves that
      member unlinked and the other members a chain in their old order. */
  lemma UnlinkRemoves(a: Arena, s: seq<Handle>, i: nat)
    requires Closed(a) && IsChain(a, s) && i < |s| && |s| >= 2
    ensures Unlinked(UnlinkFromChain(a, s[i])[s[i]])
    ensures IsChain(UnlinkFromChain(a, s[i]), s[..i] + s[i + 1..])
  {
    var r := UnlinkFromChain(a, s[i]);
    var t := s[..i] + s[i + 1..];
    UnlinkBridges(a, s, i);
    DropKeepsDistinct(s, i);
    UnlinkEnds(a, s, i);
    forall k | 0 <= k < |t| ensures t[k] in r {
      if k < i {
        assert t[k] == s[k];
      } else {
        assert t[k] == s[k + 1];
      }
    }
    assert t[0] == if i == 0 then s[1] else s[0];
    assert t[|t| - 1] == if i == |s| - 1 then s[|s| - 2] else s[|s| - 1];
  }

  /** Link symmetry survives UnlinkFromChain. */
  lemma UnlinkPreservesSymmetry(a: Arena, h: Handle)
    requires Closed(a) && Symmetric(a) && h in a
    ensures Symmetric(UnlinkFromChain(a, h))
  {
    var r := UnlinkFromChain(a, h);
    var left, right := a[h].prev, a[h].next;
    forall x, y | x in r && y in r
      ensures r[x].next == Some(y) <==> r[y].prev == Some(x)
    {
      assert a[x].next == Some(y) <==> a[y].prev == Some(x);
      assert a[x].next == Some(h) <==> a[h].prev == Some(x);
      assert a[h].next == Some(y) <==> a[y].prev == Some(h);
    }
  }

  /** Unlinking twice is the same as unlinking once. */
  lemma UnlinkIdempotent(a: Arena, h: Handle)
    requires h in a && Live(a, a[h].prev) && Live(a, a[h].next)
    ensures UnlinkFromChain(UnlinkFromChain(a, h), h) == UnlinkFromChain(a, h)
  {
  }

  /** UnlinkFromChain undoes AddNodeToChain: inserting an unlinked node
      after `h`, whose successor (if any) points back at `h`, and then
      unlinking it again gives back the arena exactly. */
  lemma UnlinkUndoesAdd(a: Arena, h: Handle, n: Handle)
    requires Closed(a) && h in a && n in a && n != h && Unlinked(a[n])
    requires a[h].next.Some? ==> a[a[h].next.value].prev == Some(h)
    ensures UnlinkFromChain(AddNodeToChain(a, h, n), n) == a
  {
  }

  /** Re-linking a node that is already further down the same chain is not
      guarded against: its old predecessor still points forward at it while
      it now points back at the new host, so link symmetry is lost. */
  lemma RelinkLeavesStaleLink(a: Arena, s: seq<Handle>, i: nat, j: nat)
    requires Closed(a) && IsChain(a, s) && i + 2 <= j < |s|
    ensures var r := AddNodeToChain(a, s[i], s[j]);
            && r[s[j - 1]].next == Some(s[j])
            && r[s[j]].prev == Some(s[i])
            && !Symmetric(r)
  {
    var r := AddNodeToChain(a, s[i], s[j]);
    assert a[s[i]].next == Some(s[i + 1]);
    assert a[s[j - 1]].next == Some(s[j]);
    assert s[j - 1] != s[i] && s[j] != s[i] && s[i + 1] != s[j] && s[i + 1] != s[i];
    if j - 1 != i + 1 {
      assert s[j - 1] != s[i + 1];
    }
    assert r[s[j - 1]].next == Some(s[j]);
    assert r[s[j]].prev == Some(s[i]);
  }

  /** Inserting `z` after `b` in the chain `[x, b, c]` gives `[x, b, z, c]`. */
  lemma InsertBetween(a: Arena, x: Handle, b: Handle, c: Handle, z: Handle)
    requires Closed(a) && IsChain(a, [x, b, c]) && b in a
    requires z in a && z !in [x, b, c] && Unlinked(a[z])
    ensures var r := AddNodeToChain(a, b, z);
            && IsChain(r, [x, b, z, c])
            && r[b].next == Some(z) && r[z].prev == Some(b)
            && r[z].next == Some(c) && r[c].prev == Some(z)
  {
    AddSplices(a, [x, b, c], 1, z);
    assert [x, b, c][..2] + [z] + [x, b, c][2..] == [x, b, z, c];
  }
}
