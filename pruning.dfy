/**
 * Pruning (`clearSections` / `clearChildren`): leaf-like nodes left without
 * children are removed, innermost first, so a node whose children were all
 * removed is itself removable.
 */
module Pruning {
  import opened Php
  import opened Heap

  /** The node types `clearChildren` removes when they have no children (line 502). */
  const ClearableTypes: seq<string> := ["grid", "block", "particle", "position", "spacer", "system"]

  predicate Clearable(kind: string) {
    kind in ClearableTypes
  }

  /** Whether a node stays, judged on the children it has after its own subtree was pruned. */
  predicate Stays(c: Cell) {
    c.children != [] || !Clearable(c.node.kind)
  }

  /** The handles of `items` that stay in heap `h`, in order. */
  function Survivors(h: seq<Cell>, items: seq<nat>): (kept: seq<nat>)
    requires forall k :: 0 <= k < |items| ==> items[k] < |h|
    ensures forall k :: 0 <= k < |kept| ==> kept[k] in items && Stays(h[kept[k]])
    ensures forall k :: 0 <= k < |items| && Stays(h[items[k]]) ==> items[k] in kept
  {
    if items == [] then []
    else
      var x := items[|items| - 1];
      var rest := Survivors(h, items[..|items| - 1]);
      assert forall k :: 0 <= k < |items| - 1 ==> items[..|items| - 1][k] == items[k];
      rest + if Stays(h[x]) then [x] else []
  }

  /**
   * `clearChildren()` (lines 494-507) on the list `items` of a node
   * above `lo`: the heap with every subtree pruned, and the handles kept.
   */
  function Prune(h: seq<Cell>, items: seq<nat>, lo: int): (res: (seq<Cell>, seq<nat>))
    requires ValidHeap(h) && Above(items, lo, |h|)
    ensures ValidHeap(res.0) && |res.0| == |h|
    ensures forall j {:trigger res.0[j]} :: 0 <= j < |h| ==> res.0[j].node == h[j].node
    ensures forall j {:trigger res.0[j]} :: 0 <= j <= lo && j < |h| ==> res.0[j] == h[j]
    ensures forall k :: 0 <= k < |res.1| ==> res.1[k] in items
    ensures Increasing(items) ==> Increasing(res.1)
    decreases |h| - lo, 0, |items|
  {
    if items == [] then (h, [])
    else
      var (h1, kept) := Prune(h, items[..|items| - 1], lo);
      var x := items[|items| - 1];
      var h2 := PruneItem(h1, x);
      assert forall k :: 0 <= k < |kept| ==> kept[k] in items;
      IncreasingSnoc(items, kept);
      (h2, kept + if Stays(h2[x]) then [x] else [])
  }

  /**
   * Lines 498-500 for the node at `x`: its children, when it has any, are
   * pruned and replaced by those kept; only `x` and its descendants change.
   */
  function PruneItem(h: seq<Cell>, x: nat): (h': seq<Cell>)
    requires ValidHeap(h) && x < |h|
    ensures ValidHeap(h') && |h'| == |h|
    ensures forall j {:trigger h'[j]} :: 0 <= j < |h| ==> h'[j].node == h[j].node
    ensures forall j {:trigger h'[j]} :: 0 <= j < x ==> h'[j] == h[j]
    ensures forall k :: 0 <= k < |h'[x].children| ==> h'[x].children[k] in h[x].children
    decreases |h| - x, 1
  {
    if h[x].children == [] then h
    else
      var (h2, kids) := Prune(h, h[x].children, x);
      assert h2[x] == h[x];
      SetChildren(h2, x, kids)
  }

  /** The node at `x` keeps exactly the children its pruned list returns. */
  lemma {:induction false} PruneItemIs(h: seq<Cell>, x: nat)
    requires ValidHeap(h) && x < |h| && h[x].children != []
    ensures var (h2, kids) := Prune(h, h[x].children, x);
      PruneItem(h, x) == h2[x := h2[x].(children := kids)]
  {
  }

  /** One more item of the loop of `clearChildren`: its subtree is pruned, then it is kept or dropped. */
  lemma {:induction false} PruneStep(h: seq<Cell>, items: seq<nat>, i: nat, lo: int, hA: seq<Cell>, kept: seq<nat>)
    requires ValidHeap(h) && Above(items, lo, |h|) && i < |items|
    requires (hA, kept) == Prune(h, items[..i], lo)
    requires ValidHeap(hA) && |hA| == |h|
    ensures var h2 := PruneItem(hA, items[i]);
      Prune(h, items[..i + 1], lo) == (h2, kept + if Stays(h2[items[i]]) then [items[i]] else [])
  {
    PrefixSnoc(items, i);
    PruneLast(h, items[..i + 1], lo);
  }

  /** Pruning a non-empty list is pruning all but its last item, then the last item. */
  lemma {:induction false} PruneLast(h: seq<Cell>, items: seq<nat>, lo: int)
    requires ValidHeap(h) && Above(items, lo, |h|) && items != []
    ensures var (h1, kept) := Prune(h, items[..|items| - 1], lo);
      var x := items[|items| - 1];
      Prune(h, items, lo) == (PruneItem(h1, x), kept + if Stays(PruneItem(h1, x)[x]) then [x] else [])
  {
  }

  /**
   * The list `clearChildren` returns (lines 501-506): exactly the given
   * nodes that are not of a clearable type or that still have children once
   * their own subtrees are pruned, in their original order.
   */
  lemma {:induction false} PruneKeeps(h: seq<Cell>, items: seq<nat>, lo: int)
    requires ValidHeap(h) && Above(items, lo, |h|) && Increasing(items)
    ensures Prune(h, items, lo).1 == Survivors(Prune(h, items, lo).0, items)
    decreases |items|
  {
    if items != [] {
      var pre := items[..|items| - 1];
      var (h1, kept) := Prune(h, pre, lo);
      var x := items[|items| - 1];
      PruneKeeps(h, pre, lo);
      var h2 := PruneItem(h1, x);
      PruneLast(h, items, lo);
      // Every earlier item is below x, so pruning x's subtree leaves it as it was.
      assert forall k :: 0 <= k < |pre| ==> pre[k] < x;
      SurvivorsAgree(h1, h2, pre);
    }
  }

  lemma {:induction false} SurvivorsAgree(a: seq<Cell>, b: seq<Cell>, items: seq<nat>)
    requires |a| == |b| && forall k :: 0 <= k < |items| ==> items[k] < |a| && a[items[k]] == b[items[k]]
    ensures Survivors(a, items) == Survivors(b, items)
  {
    if items != [] {
      SurvivorsAgree(a, b, items[..|items| - 1]);
    }
  }

  /** No node of a clearable type is left at the top level without children. */
  lemma {:induction false} NoEmptyClearable(h: seq<Cell>, items: seq<nat>, lo: int)
    requires ValidHeap(h) && Above(items, lo, |h|) && Increasing(items)
    ensures forall k :: 0 <= k < |Prune(h, items, lo).1| ==>
      var x := Prune(h, items, lo).1[k]; Prune(h, items, lo).0[x].children != [] || !Clearable(h[x].node.kind)
  {
    PruneKeeps(h, items, lo);
  }

  /** A node of a type that is never cleared is always kept, whatever happens to its children. */
  lemma {:induction false} KeepsStructure(h: seq<Cell>, items: seq<nat>, lo: int)
    requires ValidHeap(h) && Above(items, lo, |h|) && Increasing(items)
    ensures forall k :: 0 <= k < |items| && !Clearable(h[items[k]].node.kind) ==> items[k] in Prune(h, items, lo).1
  {
    PruneKeeps(h, items, lo);
  }

  /**
   * Removing the atoms sections before a save (lines 246-250): every
   * top-level node except those of type `atoms`, in order.
   */
  function WithoutAtoms(h: seq<Cell>, items: seq<nat>): (rest: seq<nat>)
    requires forall k :: 0 <= k < |items| ==> items[k] < |h|
    ensures forall k :: 0 <= k < |rest| ==> rest[k] in items && h[rest[k]].node.kind != "atoms"
    ensures forall k :: 0 <= k < |items| && h[items[k]].node.kind != "atoms" ==> items[k] in rest
    ensures |rest| <= |items|
    ensures Increasing(items) ==> Increasing(rest)
  {
    if items == [] then []
    else
      var x := items[|items| - 1];
      var rest := WithoutAtoms(h, items[..|items| - 1]);
      assert forall k :: 0 <= k < |items| - 1 ==> items[..|items| - 1][k] == items[k];
      IncreasingSnoc(items, rest);
      rest + if h[x].node.kind != "atoms" then [x] else []
  }

  /** One more item of the loop that removes the atoms sections. */
  lemma {:induction false} WithoutAtomsStep(h: seq<Cell>, items: seq<nat>, k: nat)
    requires (forall j :: 0 <= j < |items| ==> items[j] < |h|) && k < |items|
    ensures WithoutAtoms(h, items[..k + 1]) == WithoutAtoms(h, items[..k]) + if h[items[k]].node.kind != "atoms" then [items[k]] else []
  {
    assert items[..k + 1][..k] == items[..k];
  }
}
