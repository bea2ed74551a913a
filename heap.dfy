/**
 * The node objects of a layout. PHP shares node objects by handle: the same
 * object sits in the tree, in the id index and in the block index, and an
 * update through one is seen through all. Here the objects live in an arena
 * (`seq<Cell>`, a "heap") and a handle is an index into it; children are
 * handles. A layout document, before it is loaded, is a `Tree` value.
 */
module Heap {
  import opened Php

  /** The inheritance marker a node carries: outline to borrow from, source id there, parts to borrow. */
  datatype Inherit = Inherit(outline: string, particle: string, includes: seq<string>)

  /**
   * The fields of a node object other than its children. `kind` is the node's
   * `type`; an absent `subtype`, `title` or `particle` is the empty string; an
   * absent `attributes` is the empty map; `layout` is the truthiness of the
   * node's `layout` flag.
   */
  datatype Node = Node(
    kind: string,
    subtype: string,
    id: Option<string>,
    title: string,
    attributes: map<string, Value>,
    inherit: Option<Inherit>,
    layout: bool)

  /** A node object in the heap: its fields and the handles of its children, in order. */
  datatype Cell = Cell(node: Node, children: seq<nat>)

  /** A node with its subtree as a value: the form of a layout document. */
  datatype Tree = Tree(node: Node, kids: seq<Tree>)

  /** The six structural node types (Layout.php line 41). */
  const LayoutTypes: seq<string> := ["wrapper", "container", "section", "grid", "block", "offcanvas"]

  /** Whether a node type is one of the structural layout types (`isLayoutType()`). */
  predicate IsLayoutType(kind: string) {
    kind in LayoutTypes
  }

  /** The array key a node's id gives in PHP: an absent id becomes the empty string. */
  function IdKey(id: Option<string>): string {
    id.GetOr("")
  }

  predicate Above(s: seq<nat>, lo: int, hi: int) {
    forall j :: 0 <= j < |s| ==> lo < s[j] < hi
  }

  predicate Increasing(s: seq<nat>) {
    forall j, k :: 0 <= j < k < |s| ==> s[j] < s[k]
  }

  /**
   * A well-formed heap: every child handle is larger than its parent's and in
   * range, and siblings are listed in increasing order (so no node is its own
   * descendant and no node appears twice among its siblings).
   */
  predicate ValidHeap(h: seq<Cell>) {
    forall i :: 0 <= i < |h| ==> Above(h[i].children, i, |h|) && Increasing(h[i].children)
  }

  /** Two heaps that differ only in node fields, not in the shape of the forest. */
  predicate SameChildren(a: seq<Cell>, b: seq<Cell>) {
    |a| == |b| && forall i :: 0 <= i < |a| ==> a[i].children == b[i].children
  }

  /** Same forest, and every node keeps its type, subtype and id. */
  predicate SameShape(a: seq<Cell>, b: seq<Cell>) {
    SameChildren(a, b) &&
    forall i :: 0 <= i < |a| ==>
      a[i].node.kind == b[i].node.kind && a[i].node.subtype == b[i].node.subtype && a[i].node.id == b[i].node.id
  }

  lemma {:induction false} AboveGrow(s: seq<nat>, lo: int, n: int, m: int)
    requires Above(s, lo, n) && n <= m
    ensures Above(s, lo, m)
  {
  }

  /** The first `i + 1` items are the first `i` items, then item `i`. */
  lemma {:induction false} PrefixSnoc<T>(s: seq<T>, i: nat)
    requires i < |s|
    ensures var p := s[..i + 1]; |p| == i + 1 && p[..i] == s[..i] && p[i] == s[i]
  {
    assert s[..i + 1][..i] == s[..i];
  }

  /** A subsequence of the items before the last one, followed by the last one, is increasing when the items are. */
  lemma {:induction false} IncreasingSnoc(items: seq<nat>, sub: seq<nat>)
    requires items != [] && forall k :: 0 <= k < |sub| ==> sub[k] in items[..|items| - 1]
    ensures Increasing(items) && Increasing(sub) ==> Increasing(sub + [items[|items| - 1]])
  {
    if Increasing(items) {
      var pre := items[..|items| - 1];
      forall k | 0 <= k < |sub| ensures sub[k] < items[|items| - 1] {
        assert sub[k] in pre;
        var j :| 0 <= j < |pre| && pre[j] == sub[k];
        assert items[j] == sub[k];
      }
    }
  }

  lemma {:induction false} SameShapeTrans(a: seq<Cell>, b: seq<Cell>, c: seq<Cell>)
    requires SameShape(a, b) && SameShape(b, c)
    ensures SameShape(a, c) && SameShape(c, a)
  {
  }

  lemma {:induction false} SameChildrenValid(a: seq<Cell>, b: seq<Cell>)
    requires SameChildren(a, b)
    ensures ValidHeap(a) <==> ValidHeap(b)
  {
    assert forall i :: 0 <= i < |a| ==> a[i].children == b[i].children;
  }

  /** The subtree rooted at handle `i`, as a value. */
  function Unfold(h: seq<Cell>, i: nat): (t: Tree)
    requires ValidHeap(h) && i < |h|
    ensures t.node == h[i].node && |t.kids| == |h[i].children|
    decreases |h| - i
  {
    var c := h[i].children;
    Tree(h[i].node, seq(|c|, k requires 0 <= k < |c| => Unfold(h, c[k])))
  }

  /** The subtrees rooted at a list of handles. */
  function UnfoldAll(h: seq<Cell>, roots: seq<nat>): (ts: seq<Tree>)
    requires ValidHeap(h) && Above(roots, -1, |h|)
    ensures |ts| == |roots| && forall k :: 0 <= k < |roots| ==> ts[k] == Unfold(h, roots[k])
  {
    seq(|roots|, k requires 0 <= k < |roots| => Unfold(h, roots[k]))
  }

  /**
   * Unfolding depends only on the cells from the root onwards: two heaps that
   * agree on cells `i..|a|-1` unfold `i` alike.
   */
  lemma {:induction false} UnfoldAgree(a: seq<Cell>, b: seq<Cell>, i: nat)
    requires ValidHeap(a) && ValidHeap(b) && i < |a| <= |b|
    requires forall j :: i <= j < |a| ==> a[j] == b[j]
    ensures Unfold(a, i) == Unfold(b, i)
    decreases |a| - i
  {
    var c := a[i].children;
    assert b[i] == a[i];
    forall k | 0 <= k < |c| ensures Unfold(a, c[k]) == Unfold(b, c[k]) {
      UnfoldAgree(a, b, c[k]);
    }
    assert Unfold(a, i).kids == Unfold(b, i).kids;
  }

  /** Copy one tree into the heap in pre-order; returns the new heap and the root's handle. */
  function FlattenTree(h: seq<Cell>, t: Tree): (r: (seq<Cell>, nat))
    ensures |r.0| > |h| && r.1 == |h| && r.0[..|h|] == h
    ensures ValidHeap(h) ==> ValidHeap(r.0)
    decreases t, 1
  {
    var idx := |h|;
    var h1 := h + [Cell(t.node, [])];
    var (h2, kids) := FlattenList(h1, t.kids);
    var h3 := h2[idx := Cell(t.node, kids)];
    assert h3[..|h|] == h by {
      assert h2[..|h1|][..|h|] == h1[..|h|];
    }
    assert ValidHeap(h) ==> ValidHeap(h3) by {
      if ValidHeap(h) {
        assert ValidHeap(h1) by {
          forall i | 0 <= i < |h1| ensures Above(h1[i].children, i, |h1|) && Increasing(h1[i].children) {
            if i < |h| { assert h1[i] == h[i]; }
          }
        }
        forall i | 0 <= i < |h3| ensures Above(h3[i].children, i, |h3|) && Increasing(h3[i].children) {
          if i != idx { assert h3[i] == h2[i]; }
        }
      }
    }
    (h3, idx)
  }

  /** Copy a list of trees into the heap, one after the other; returns the new heap and the roots' handles. */
  function FlattenList(h: seq<Cell>, ts: seq<Tree>): (r: (seq<Cell>, seq<nat>))
    ensures |r.0| >= |h| && r.0[..|h|] == h
    ensures |r.1| == |ts| && Above(r.1, |h| - 1, |r.0|) && Increasing(r.1)
    ensures ValidHeap(h) ==> ValidHeap(r.0)
    decreases ts, 0
  {
    if ts == [] then (h, [])
    else
      var (h1, roots) := FlattenList(h, ts[..|ts| - 1]);
      var (h2, root) := FlattenTree(h1, ts[|ts| - 1]);
      assert h2[..|h|] == h by {
        assert h2[..|h1|][..|h|] == h1[..|h|];
      }
      (h2, roots + [root])
  }

  /** Flattening and then unfolding gives back the tree. */
  lemma {:induction false} FlattenTreeRoundTrip(h: seq<Cell>, t: Tree)
    requires ValidHeap(h)
    ensures ValidHeap(FlattenTree(h, t).0) && Unfold(FlattenTree(h, t).0, |h|) == t
    decreases t, 1
  {
    var idx := |h|;
    var h1 := h + [Cell(t.node, [])];
    assert ValidHeap(h1) by {
      forall i | 0 <= i < |h1| ensures Above(h1[i].children, i, |h1|) && Increasing(h1[i].children) {
        if i < |h| { assert h1[i] == h[i]; }
      }
    }
    var (h2, kids) := FlattenList(h1, t.kids);
    var h3 := h2[idx := Cell(t.node, kids)];
    assert FlattenTree(h, t) == (h3, idx);
    FlattenListRoundTrip(h1, t.kids);
    forall k | 0 <= k < |kids| ensures Unfold(h3, kids[k]) == t.kids[k] {
      UnfoldAgree(h2, h3, kids[k]);
    }
    assert Unfold(h3, idx).kids == t.kids;
  }

  /** Flattening a list and then unfolding its roots gives back the list. */
  lemma {:induction false} FlattenListRoundTrip(h: seq<Cell>, ts: seq<Tree>)
    requires ValidHeap(h)
    ensures ValidHeap(FlattenList(h, ts).0)
    ensures UnfoldAll(FlattenList(h, ts).0, FlattenList(h, ts).1) == ts
    decreases ts, 0
  {
    if ts != [] {
      var (h1, roots) := FlattenList(h, ts[..|ts| - 1]);
      var (h2, root) := FlattenTree(h1, ts[|ts| - 1]);
      FlattenListRoundTrip(h, ts[..|ts| - 1]);
      FlattenTreeRoundTrip(h1, ts[|ts| - 1]);
      var rs := roots + [root];
      forall k | 0 <= k < |ts| ensures Unfold(h2, rs[k]) == ts[k] {
        if k < |ts| - 1 {
          assert forall j :: rs[k] <= j < |h1| ==> h1[j] == h2[j] by {
            assert h2[..|h1|] == h1;
          }
          UnfoldAgree(h1, h2, rs[k]);
          assert Unfold(h1, roots[k]) == ts[..|ts| - 1][k];
        }
      }
    }
  }

  // ---------------------------------------------------------------------
  // Updating one node object
  // ---------------------------------------------------------------------

  /** The heap with the attributes of node `i` replaced. */
  function SetAttributes(h: seq<Cell>, i: nat, a: map<string, Value>): (h': seq<Cell>)
    requires i < |h|
    ensures SameShape(h, h') && h'[i].node == h[i].node.(attributes := a)
    ensures forall j :: 0 <= j < |h| && j != i ==> h'[j] == h[j]
  {
    h[i := h[i].(node := h[i].node.(attributes := a))]
  }

  /** The heap with the children of node `i` replaced, for handles that keep the heap well formed. */
  function SetChildren(h: seq<Cell>, i: nat, c: seq<nat>): (h': seq<Cell>)
    requires ValidHeap(h) && i < |h| && Above(c, i, |h|) && Increasing(c)
    ensures ValidHeap(h') && |h'| == |h| && h'[i] == h[i].(children := c)
    ensures forall j :: 0 <= j < |h| && j != i ==> h'[j] == h[j]
  {
    var h' := h[i := h[i].(children := c)];
    assert forall j :: 0 <= j < |h| && j != i ==> h'[j] == h[j];
    h'
  }

  /** The heap with the trees copied after its last cell and made the children of `x`. */
  function Graft(h: seq<Cell>, x: nat, trees: seq<Tree>): (res: (seq<Cell>, seq<nat>))
    requires ValidHeap(h) && x < |h|
    ensures ValidHeap(res.0) && |res.0| >= |h| && res.0[x].children == res.1
    ensures Above(res.1, x, |res.0|) && Above(res.1, |h| - 1, |res.0|) && Increasing(res.1)
    ensures res.0[..|h|] == h[x := h[x].(children := res.1)]
  {
    var (h1, roots) := FlattenList(h, trees);
    var h2 := SetChildren(h1, x, roots);
    assert h2[..|h|] == h[x := h[x].(children := roots)] by {
      assert h1[..|h|] == h;
    }
    (h2, roots)
  }


  /** The grafted children unfold to the trees grafted. */
  lemma {:induction false} GraftRoundTrip(h: seq<Cell>, x: nat, trees: seq<Tree>)
    requires ValidHeap(h) && x < |h|
    ensures UnfoldAll(Graft(h, x, trees).0, Graft(h, x, trees).1) == trees
  {
    var (h1, roots) := FlattenList(h, trees);
    FlattenListRoundTrip(h, trees);
    var (h2, roots') := Graft(h, x, trees);
    assert roots' == roots;
    forall k | 0 <= k < |roots| ensures Unfold(h2, roots[k]) == trees[k] {
      assert forall j :: roots[k] <= j < |h1| ==> h1[j] == h2[j];
      UnfoldAgree(h1, h2, roots[k]);
    }
  }
}
