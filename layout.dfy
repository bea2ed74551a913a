/**
 * The `Layout` object: a named layout, its preset, its forest of node
 * objects, and the indices built over them on first use. Every method that
 * changes the object is proved to leave it in the state the specification
 * functions of the other modules describe.
 */
module Layouts {
  import opened Php
  import opened Heap
  import opened Indexer
  import opened Inheritance
  import opened Summaries
  import opened Widths
  import opened Pruning
  import opened Sections
  import Names

  /** A layout document as read from storage: its top-level items and its `preset` entry, if any. */
  datatype Document = Document(items: seq<Tree>, preset: Option<map<string, Value>>)

  /** What `init()` leaves: the indices rebuilt from scratch, then the inheritance pass. */
  function Initialized(h: seq<Cell>, items: seq<nat>, blocks: map<string, nat>, outlines: map<string, Outline>)
    : (res: (seq<Cell>, Refs))
    requires ValidHeap(h) && Above(items, -1, |h|) && (forall id :: id in blocks ==> blocks[id] < |h|)
    requires ValidOutlines(outlines)
    ensures ValidHeap(res.0) && RefsIn(res.1, |res.0|) && |res.0| >= |h|
  {
    var (h1, r1) := IndexRoot(h, items, blocks);
    InheritSpec(h1, r1, outlines)
  }

  /** The state `init()` leaves: unchanged once indexed, rebuilt otherwise. */
  function AfterInit(h: seq<Cell>, r: Refs, items: seq<nat>, indexed: bool, outlines: map<string, Outline>)
    : (res: (seq<Cell>, Refs))
    requires ValidHeap(h) && Above(items, -1, |h|) && RefsIn(r, |h|) && ValidOutlines(outlines)
    ensures ValidHeap(res.0) && RefsIn(res.1, |res.0|) && Above(items, -1, |res.0|)
    ensures indexed ==> res == (h, r)
    ensures !indexed ==> res == Initialized(h, items, r.blocks, outlines)
  {
    if indexed then (h, r) else Initialized(h, items, r.blocks, outlines)
  }

  /** The state `prepareWidths()` leaves: `init()`, then every node with children balanced. */
  function Prepared(h: seq<Cell>, r: Refs, items: seq<nat>, indexed: bool, outlines: map<string, Outline>)
    : (res: (seq<Cell>, Refs))
    requires ValidHeap(h) && Above(items, -1, |h|) && RefsIn(r, |h|) && ValidOutlines(outlines)
    ensures ValidHeap(res.0) && RefsIn(res.1, |res.0|) && Above(items, -1, |res.0|)
  {
    var st := AfterInit(h, r, items, indexed, outlines);
    (Balanced(st.0, items, -1), st.1)
  }

  /** The old layout `copySections()` builds from a document and indexes (lines 511-513). */
  function Previous(previous: Document, outlines: map<string, Outline>): (res: (seq<Cell>, Refs))
    requires ValidOutlines(outlines)
    ensures ValidHeap(res.0) && RefsIn(res.1, |res.0|)
  {
    var (h, roots) := FlattenList([], previous.items);
    Initialized(h, roots, map[], outlines)
  }

  /** What `copySections()` leaves once this layout is indexed as `st`: the new heap and the leftover. */
  function Copied(st: (seq<Cell>, Refs), previous: Document, outlines: map<string, Outline>): (res: (seq<Cell>, Leftover))
    requires ValidHeap(st.0) && RefsIn(st.1, |st.0|) && ValidOutlines(outlines)
    ensures ValidHeap(res.0) && |res.0| >= |st.0|
  {
    var (oh, or) := Previous(previous, outlines);
    Sections.CopySections(st.0, st.1, oh, or, Categories)
  }

  /**
   * What `save()` writes (lines 217-261): the directory it saves under, the
   * atoms copied into the page head when cascading, and the stored document.
   */
  datatype Saved = Saved(directory: string, headAtoms: Option<seq<Atom>>, preset: map<string, Value>, items: seq<Tree>)

  /** The document `save()` stores has no atoms section at the top level. */
  lemma {:induction false} SavedWithoutAtoms(h: seq<Cell>, items: seq<nat>)
    requires ValidHeap(h) && Above(items, -1, |h|)
    ensures var rest := WithoutAtoms(h, items);
      Above(rest, -1, |h|) && forall k :: 0 <= k < |rest| ==> UnfoldAll(h, rest)[k].node.kind != "atoms"
  {
  }

  /** A forest flattened into an empty heap is a valid forest with empty indices, and unfolds back. */
  lemma {:induction false} FlattenFresh(trees: seq<Tree>)
    ensures var (h, roots) := FlattenList([], trees);
      ValidHeap(h) && Above(roots, -1, |h|) && Increasing(roots) && UnfoldAll(h, roots) == trees &&
      RefsIn(Refs(map[], map[], map[], []), |h|)
  {
    FlattenListRoundTrip([], trees);
  }

  class Layout {
    var name: string
    var timestamp: int
    var preset: map<string, Value>
    /** Whether the layout was created from a document (`exists()`). */
    var present: bool
    /** The node objects, and the handles of the top-level items in order. */
    var heap: seq<Cell>
    var items: seq<nat>
    /** Whether `init()` has run (PHP tests whether the id index is set). */
    var indexed: bool
    var references: map<string, nat>
    var types: map<string, SubtypeIndex>
    var blocks: map<string, nat>
    var inherit: Assoc<string, nat>

    function Indices(): Refs
      reads this`references, this`types, this`blocks, this`inherit
    {
      Refs(references, types, blocks, inherit)
    }

    ghost predicate Valid()
      reads this`heap, this`items, this`references, this`types, this`blocks, this`inherit
    {
      ValidHeap(heap) && Above(items, -1, |heap|) && Increasing(items) && RefsIn(Indices(), |heap|)
    }

    /**
     * `new Layout()` (lines 147-166): the document's items
     * are loaded; the preset is the one given, else the document's, completed
     * with the defaults; nothing is indexed yet.
     */
    constructor (name: string, doc: Option<Document>, given: Option<map<string, Value>>)
      ensures Valid() && !indexed
      ensures this.name == name && timestamp == 0 && present == doc.Some?
      ensures UnfoldAll(heap, items) == if doc.Some? then doc.value.items else []
      ensures (heap, items) == FlattenList([], if doc.Some? then doc.value.items else [])
      ensures preset == Summaries.ChoosePreset(given, if doc.Some? then doc.value.preset else None)
      ensures Indices() == Refs(map[], map[], map[], [])
    {
      var trees := if doc.Some? then doc.value.items else [];
      var (h, roots) := FlattenList([], trees);
      FlattenFresh(trees);
      this.name := name;
      timestamp := 0;
      present := doc.Some?;
      heap := h;
      items := roots;
      preset := Summaries.ChoosePreset(given, if doc.Some? then doc.value.preset else None);
      indexed := false;
      references := map[];
      types := map[];
      blocks := map[];
      inherit := [];
    }

    // -------------------------------------------------------------------
    // Indexing
    // -------------------------------------------------------------------

    /**
     * `initReferences()` (lines 607-651): every node of
     * `list` is indexed, tagged under `ctx`, and followed by its subtree.
     */
    method IndexItems(list: seq<nat>, block: Option<nat>, ctx: Option<Context>, ghost lo: int)
      requires ValidHeap(heap) && Above(list, lo, |heap|) && RefsIn(Indices(), |heap|)
      requires block.Some? ==> block.value < |heap|
      modifies this`heap, this`references, this`types, this`blocks, this`inherit
      ensures (heap, Indices()) == IndexSpec(old(heap), old(Indices()), list, block, ctx, lo)
      decreases |heap| - lo, 1
    {
      ghost var h0, r0 := heap, Indices();
      var i := 0;
      while i < |list|
        invariant 0 <= i <= |list| && Above(list[..i], lo, |h0|)
        invariant (heap, Indices()) == IndexSpec(h0, r0, list[..i], block, ctx, lo)
      {
        IndexNext(list, i, block, ctx, lo, h0, r0);
        i := i + 1;
      }
      assert list[..|list|] == list;
    }

    /** One iteration of the loop of `initReferences`: the entry `list[i]` and its subtree. */
    method IndexNext(list: seq<nat>, i: nat, block: Option<nat>, ctx: Option<Context>, ghost lo: int,
                     ghost h0: seq<Cell>, ghost r0: Refs)
      requires ValidHeap(h0) && Above(list, lo, |h0|) && RefsIn(r0, |h0|) && i < |list|
      requires block.Some? ==> block.value < |h0|
      requires Above(list[..i], lo, |h0|) && (heap, Indices()) == IndexSpec(h0, r0, list[..i], block, ctx, lo)
      modifies this`heap, this`references, this`types, this`blocks, this`inherit
      ensures Above(list[..i + 1], lo, |h0|)
      ensures (heap, Indices()) == IndexSpec(h0, r0, list[..i + 1], block, ctx, lo)
      decreases |h0| - lo, 0, 0
    {
      IndexSpecStep(h0, r0, list, i, block, ctx, lo, heap, Indices());
      IndexEntry(list[i], block, ctx);
    }

    /** The loop body of `initReferences` (lines 617-643): the node at `x`, then its subtree. */
    method IndexEntry(x: nat, block: Option<nat>, ctx: Option<Context>)
      requires ValidHeap(heap) && x < |heap| && RefsIn(Indices(), |heap|)
      requires block.Some? ==> block.value < |heap|
      modifies this`heap, this`references, this`types, this`blocks, this`inherit
      ensures (heap, Indices()) == EntrySpec(old(heap), old(Indices()), x, block, ctx)
      decreases |heap| - x, 2
    {
      VisitNode(x, block, ctx);
      SameChildrenValid(old(heap), heap);
      IndexItems(heap[x].children, if heap[x].node.kind == "block" then Some(x) else None, ctx, x);
    }

    /**
     * The body of the loop of `initReferences` (lines 617-643) for the node at
     * `x`, before its subtree: the block index entry, the tag, the other indices.
     */
    method VisitNode(x: nat, block: Option<nat>, ctx: Option<Context>)
      requires x < |heap| && (block.Some? ==> block.value < |heap|) && RefsIn(Indices(), |heap|)
      modifies this`heap, this`references, this`types, this`blocks, this`inherit
      ensures (heap, Indices()) == VisitStep(old(heap), old(Indices()), Visit(x, block), ctx)
    {
      TaggedKeeps(heap[x].node, ctx);
      RegisterBlock(heap[x].node, block);
      var n := TagNode(x, ctx);
      RegisterNode(n, x);
    }

    /** Lines 621-623: with a block passed down, the node's id maps to it. */
    method RegisterBlock(n: Node, block: Option<nat>)
      modifies this`blocks
      ensures blocks == BlocksAfter(old(blocks), n, block)
    {
      if block.Some? {
        blocks := blocks[IdKey(n.id) := block.value];
      }
    }

    /** Lines 625-628: under a context, a content node takes the context's outline and parts. */
    method TagNode(x: nat, ctx: Option<Context>) returns (n: Node)
      requires x < |heap|
      modifies this`heap
      ensures heap == TagAt(old(heap), x, ctx) && n == heap[x].node
    {
      n := heap[x].node;
      if ctx.Some? && !IsLayoutType(n.kind) {
        n := Tagged(n, ctx);
        heap := heap[x := heap[x].(node := n)];
      }
    }

    /** Lines 630-639: the id index, the type index and the inherit list take the node at `x`. */
    method RegisterNode(n: Node, x: nat)
      modifies this`references, this`types, this`inherit
      ensures references == ReferencesAfter(old(references), n, x)
      ensures types == TypesAfter(old(types), n, x)
      ensures inherit == InheritAfter(old(inherit), n, x)
    {
      RegisterReference(n, x);
      RegisterType(n, x);
      RegisterInherit(n, x);
    }

    /** Lines 630-631: a node with an id is found by it. */
    method RegisterReference(n: Node, x: nat)
      modifies this`references
      ensures references == ReferencesAfter(old(references), n, x)
    {
      if n.id.Some? {
        references := references[n.id.value := x];
      }
    }

    /** Lines 632-633 and 637-638: the node joins the bucket of its type and subtype, by id or at the end. */
    method RegisterType(n: Node, x: nat)
      modifies this`types
      ensures types == TypesAfter(old(types), n, x)
    {
      if n.id.Some? {
        types := PutEntry(types, n.kind, EffectiveSubtype(n), KStr(n.id.value), x);
      } else {
        types := AppendEntry(types, n.kind, EffectiveSubtype(n), x);
      }
    }

    /** Lines 634-636: a node with an id that names an outline to inherit from is listed for the inheritance pass. */
    method RegisterInherit(n: Node, x: nat)
      modifies this`inherit
      ensures inherit == InheritAfter(old(inherit), n, x)
    {
      if n.id.Some? && Inherits(n) {
        inherit := Put(inherit, n.id.value, x);
      }
    }

    /** `initReferences()` at the top level (lines 609-614): three indices reset, the block index kept. */
    method InitReferences()
      requires Valid()
      modifies this`heap, this`references, this`types, this`blocks, this`inherit
      ensures Valid()
      ensures (heap, Indices()) == IndexRoot(old(heap), old(items), old(blocks))
    {
      references, types, inherit := map[], map[], [];
      IndexItems(items, None, None, -1);
    }

    /**
     * `init()` (lines 182-190): on first use, the indices are rebuilt and the
     * inheritance pass runs; later calls change nothing.
     */
    method Init(outlines: map<string, Outline>)
      requires Valid() && ValidOutlines(outlines)
      modifies this`heap, this`references, this`types, this`blocks, this`inherit, this`indexed
      ensures Valid() && indexed
      ensures (heap, Indices()) == AfterInit(old(heap), old(Indices()), items, old(indexed), outlines)
    {
      if !indexed {
        Reindex(outlines);
        indexed := true;
      }
    }

    /** The body of `init()` on first use: the indices from scratch, then the inheritance pass. */
    method Reindex(outlines: map<string, Outline>)
      requires Valid() && ValidOutlines(outlines)
      modifies this`heap, this`references, this`types, this`blocks, this`inherit
      ensures Valid()
      ensures (heap, Indices()) == Initialized(old(heap), items, old(blocks), outlines)
    {
      ghost var h0 := heap;
      InitReferences();
      InitInheritance(outlines);
      AboveGrow(items, -1, |h0|, |heap|);
    }

    // -------------------------------------------------------------------
    // Inheritance
    // -------------------------------------------------------------------

    /**
     * `initInheritance()` (lines 567-600): the inherit list is grouped by
     * outline first; then each listed id, group by group, borrows its parts.
     */
    method InitInheritance(outlines: map<string, Outline>)
      requires ValidHeap(heap) && RefsIn(Indices(), |heap|) && ValidOutlines(outlines)
      modifies this`heap, this`references, this`types, this`blocks, this`inherit
      ensures (heap, Indices()) == InheritSpec(old(heap), old(Indices()), outlines)
    {
      ghost var h0, r0 := heap, Indices();
      var groups := CollectInherit();
      var g := 0;
      while g < |groups|
        invariant 0 <= g <= |groups|
        invariant (heap, Indices()) == FoldJobs(h0, r0, Jobs(groups[..g]), outlines)
      {
        GroupStep(h0, r0, groups, g, outlines, heap, Indices());
        InheritGroup(outlines, groups[g].0, groups[g].1);
        g := g + 1;
      }
      assert groups[..|groups|] == groups;
    }

    /** The inner loop (lines 570-597): every id of one group inherits from the group's outline. */
    method InheritGroup(outlines: map<string, Outline>, outlineId: string, names: seq<string>)
      requires ValidHeap(heap) && RefsIn(Indices(), |heap|) && ValidOutlines(outlines)
      modifies this`heap, this`references, this`types, this`blocks, this`inherit
      ensures (heap, Indices()) == FoldJobs(old(heap), old(Indices()), GroupJobs(outlineId, names), outlines)
    {
      ghost var h0, r0 := heap, Indices();
      var outline := OutlineNamed(outlines, outlineId);
      var k := 0;
      while k < |names|
        invariant 0 <= k <= |names|
        invariant (heap, Indices()) == FoldJobs(h0, r0, GroupJobs(outlineId, names[..k]), outlines)
      {
        NameStep(h0, r0, outlineId, names, k, outlines, heap, Indices());
        InheritFrom(outlineId, outline, names[k]);
        k := k + 1;
      }
      assert names[..|names|] == names;
    }

    /**
     * The id loop body (lines 572-597): the node now indexed under `id`
     * borrows, part by part, from the node `inheritId` of `outline`.
     */
    method InheritFrom(outlineId: string, outline: Outline, id: string)
      requires ValidHeap(heap) && RefsIn(Indices(), |heap|) && ValidOutline(outline)
      modifies this`heap, this`references, this`types, this`blocks, this`inherit
      ensures (heap, Indices()) == InheritItem(old(heap), old(Indices()), outlineId, outline, id)
    {
      if id in references && heap[references[id]].node.inherit.Some? {
        var x := references[id];
        var n := heap[x].node;
        InheritParts(x, id, n.inherit.value.includes, outlineId, outline, InheritId(n, id));
      }
    }

    /** The part loop (lines 577-596) for the node at `x`. */
    method InheritParts(x: nat, id: string, parts: seq<string>, outlineId: string, outline: Outline, inheritId: string)
      requires ValidHeap(heap) && RefsIn(Indices(), |heap|) && x < |heap| && ValidOutline(outline)
      modifies this`heap, this`references, this`types, this`blocks, this`inherit
      ensures (heap, Indices()) == ApplyParts(old(heap), old(Indices()), x, id, parts, outlineId, outline, inheritId)
    {
      ghost var h0, r0 := heap, Indices();
      var p := 0;
      while p < |parts|
        invariant 0 <= p <= |parts|
        invariant (heap, Indices()) == ApplyParts(h0, r0, x, id, parts[..p], outlineId, outline, inheritId)
      {
        PartStep(h0, r0, x, id, parts, p, outlineId, outline, inheritId, heap, Indices());
        InheritPart(x, id, parts[p], outlineId, outline, inheritId);
        p := p + 1;
      }
      assert parts[..|parts|] == parts;
    }

    /** The part switch (lines 578-596) for the node at `x`. */
    method InheritPart(x: nat, id: string, part: string, outlineId: string, outline: Outline, inheritId: string)
      requires ValidHeap(heap) && RefsIn(Indices(), |heap|) && x < |heap| && ValidOutline(outline)
      modifies this`heap, this`references, this`types, this`blocks, this`inherit
      ensures (heap, Indices()) == ApplyPart(old(heap), old(Indices()), x, id, part, outlineId, outline, inheritId)
    {
      if part == "attributes" {
        heap := SetAttributes(heap, x, SourceAttributes(outline, inheritId));
      } else if part == "block" {
        if id in blocks {
          var b := blocks[id];
          heap := SetAttributes(heap, b, Union(SourceBlockAttributes(outline, inheritId), heap[b].node.attributes));
        }
      } else if part == "children" {
        var trees := SourceChildren(outline, inheritId);
        if trees != [] {
          var (grown, roots) := Graft(heap, x, trees);
          RefsInGrow(Indices(), |heap|, |grown|);
          heap := grown;
          IndexItems(roots, None, Some(CopyContext(outlineId)), x);
        } else {
          heap := SetChildren(heap, x, []);
        }
      }
    }

    // -------------------------------------------------------------------
    // Widths
    // -------------------------------------------------------------------

    /** `prepareWidths()` (lines 657-664): after `init()`, every node with children is balanced. */
    method PrepareWidths(outlines: map<string, Outline>)
      requires Valid() && ValidOutlines(outlines)
      modifies this`heap, this`references, this`types, this`blocks, this`inherit, this`indexed
      ensures Valid() && indexed
      ensures (heap, Indices()) == Prepared(old(heap), old(Indices()), items, old(indexed), outlines)
    {
      Init(outlines);
      BalanceItems();
    }

    /** `calcWidths()` on the top-level items: the forest changes, the indices stay. */
    method BalanceItems()
      requires Valid()
      modifies this`heap
      ensures Valid() && heap == Balanced(old(heap), items, -1)
    {
      CalcWidths(items, -1);
    }

    /** `calcWidths()` (lines 672-725), post-order over `list`, the children of a node above `lo`. */
    method CalcWidths(list: seq<nat>, ghost lo: int)
      requires ValidHeap(heap) && Above(list, lo, |heap|)
      modifies this`heap
      ensures heap == Balanced(old(heap), list, lo)
      decreases |heap| - lo, 1
    {
      ghost var h0 := heap;
      var i := 0;
      while i < |list|
        invariant 0 <= i <= |list|
        invariant heap == Balanced(h0, list[..i], lo)
      {
        CalcWidthsNext(list, i, lo, h0);
        i := i + 1;
      }
      assert list[..|list|] == list;
    }

    /** One iteration of the loop of `calcWidths`: the subtree of `list[i]` first, then the node. */
    method CalcWidthsNext(list: seq<nat>, i: nat, ghost lo: int, ghost h0: seq<Cell>)
      requires ValidHeap(h0) && Above(list, lo, |h0|) && i < |list|
      requires heap == Balanced(h0, list[..i], lo)
      modifies this`heap
      ensures heap == Balanced(h0, list[..i + 1], lo)
      decreases |h0| - lo, 0
    {
      WidthsStep(h0, list, i, lo, heap);
      var x := list[i];
      if heap[x].children != [] {
        CalcWidths(heap[x].children, x);
        BalanceAt(x);
      }
    }

    /** Lines 677-722 for the node at `x`, whose subtrees are already balanced. */
    method BalanceAt(x: nat)
      requires ValidHeap(heap) && x < |heap| && heap[x].children != []
      modifies this`heap
      ensures heap == Balance(old(heap), x)
    {
      var cs := heap[x].children;
      var t := TallyChildren(cs, |cs|);
      assert Balance(old(heap), x) == RescaleIf((heap, t), cs);
      if t.count != 0 && Round1(t.dynamic) != 100.0 && Round1(t.dynamic) != CanonicalSum(t.count) {
        var m := (100.0 - t.fixed) / (if t.dynamic == 0.0 then 1.0 else t.dynamic);
        assert m == Multiplier(t);
        var _ := RescaleChildren(cs, m);
      }
    }

    /** The first loop (lines 677-693): default sizes filled in, block sizes tallied. */
    method TallyChildren(cs: seq<nat>, total: nat) returns (t: Tally)
      requires Above(cs, -1, |heap|) && total > 0
      modifies this`heap
      ensures (heap, t) == Prepare(old(heap), cs, total)
    {
      ghost var h0 := heap;
      t := Tally(0.0, 0.0, 0);
      var k := 0;
      while k < |cs|
        invariant 0 <= k <= |cs| && |heap| == |h0|
        invariant (heap, t) == Prepare(h0, cs[..k], total)
      {
        PrepareStep(h0, cs, k, total, heap, t);
        t := TallyChild(cs[k], total, t);
        k := k + 1;
      }
      assert cs[..|cs|] == cs;
    }

    /** The first loop's body for the child at `c`: a block without a size gets an equal share first. */
    method TallyChild(c: nat, total: nat, t: Tally) returns (t': Tally)
      requires c < |heap| && total > 0
      modifies this`heap
      ensures (heap, t') == PrepareOne(old(heap), c, total, t)
    {
      t' := t;
      var n := heap[c].node;
      if n.kind == "block" {
        if !IsSet(n.attributes, "size") {
          n := WithSize(n, 100.0 / total as real);
          heap := heap[c := heap[c].(node := n)];
        } else {
          assert heap[c := heap[c].(node := n)] == heap;
        }
        if !Fixed(n) {
          t' := t'.(dynamic := t'.dynamic + Size(n));
        } else {
          t' := t'.(fixed := t'.fixed + Size(n));
        }
        t' := t'.(count := t'.count + 1);
      }
    }

    /**
     * The second loop (lines 704-721): each dynamic block's size is scaled by
     * `m`, the carried rounding error added, and the result rounded.
     */
    method RescaleChildren(cs: seq<nat>, m: real) returns (fraction: real)
      requires Above(cs, -1, |heap|)
      modifies this`heap
      ensures (heap, fraction) == Rescale(old(heap), cs, Scaling(m))
    {
      ghost var h0 := heap;
      fraction := 0.0;
      var k := 0;
      while k < |cs|
        invariant 0 <= k <= |cs| && |heap| == |h0|
        invariant (heap, fraction) == Rescale(h0, cs[..k], Scaling(m))
      {
        RescaleStep(h0, cs, k, Scaling(m), heap, fraction);
        fraction := RescaleChild(cs[k], m, fraction);
        k := k + 1;
      }
      assert cs[..|cs|] == cs;
    }

    /** The second loop's body for the child at `c`. */
    method RescaleChild(c: nat, m: real, fraction: real) returns (carry: real)
      requires c < |heap|
      modifies this`heap
      ensures (heap, carry) == RescaleAt(old(heap), c, Scaling(m), fraction)
    {
      carry := fraction;
      var n := heap[c].node;
      if n.kind == "block" && !Fixed(n) {
        var size := Size(n) * m + fraction;
        assert size == Scaling(m)(Size(n)) + fraction;
        var newSize := Round(size);
        carry := size - newSize as real;
        assert RescaleOne(n, size) == (WithSize(n, newSize as real), carry);
        heap := heap[c := heap[c].(node := WithSize(n, newSize as real))];
      }
    }

    // -------------------------------------------------------------------
    // Clearing
    // -------------------------------------------------------------------

    /** `clearSections()` (lines 487-492): the top-level list keeps only what survives pruning. */
    method ClearSections()
      requires Valid()
      modifies this`heap, this`items
      ensures Valid()
      ensures (heap, items) == Prune(old(heap), old(items), -1)
    {
      var kept := ClearChildren(items, -1);
      items := kept;
    }

    /**
     * `clearChildren()` (lines 494-507) on `list`, the children of a
     * node above `lo`: every subtree pruned, and the surviving entries returned.
     */
    method ClearChildren(list: seq<nat>, ghost lo: int) returns (kept: seq<nat>)
      requires ValidHeap(heap) && Above(list, lo, |heap|)
      modifies this`heap
      ensures (heap, kept) == Prune(old(heap), list, lo)
      decreases |heap| - lo, 1
    {
      ghost var h0 := heap;
      kept := [];
      var i := 0;
      while i < |list|
        invariant 0 <= i <= |list|
        invariant (heap, kept) == Prune(h0, list[..i], lo)
      {
        kept := ClearNext(list, i, lo, h0, kept);
        i := i + 1;
      }
      assert list[..|list|] == list;
    }

    /** One iteration of the loop of `clearChildren`. */
    method ClearNext(list: seq<nat>, i: nat, ghost lo: int, ghost h0: seq<Cell>, kept: seq<nat>) returns (kept': seq<nat>)
      requires ValidHeap(h0) && Above(list, lo, |h0|) && i < |list|
      requires (heap, kept) == Prune(h0, list[..i], lo)
      modifies this`heap
      ensures (heap, kept') == Prune(h0, list[..i + 1], lo)
      decreases |h0| - lo, 0
    {
      PruneStep(h0, list, i, lo, heap, kept);
      var x := list[i];
      ClearItem(x);
      if heap[x].children == [] && Clearable(heap[x].node.kind) {
        assert kept + [] == kept;
        kept' := kept;
      } else {
        kept' := kept + [x];
      }
    }

    /** Lines 498-500: the children of the node at `x`, when it has any, are pruned in turn. */
    method ClearItem(x: nat)
      requires ValidHeap(heap) && x < |heap|
      modifies this`heap
      ensures heap == PruneItem(old(heap), x)
      decreases |heap| - x, 2
    {
      if heap[x].children != [] {
        PruneItemIs(heap, x);
        var kids := ClearChildren(heap[x].children, x);
        heap := heap[x := heap[x].(children := kids)];
      }
    }

    // -------------------------------------------------------------------
    // Copying sections
    // -------------------------------------------------------------------

    /**
     * `copySections()` (lines 509-544): after `init()`, the content of the
     * old layout is moved into the sections, off-canvas sections and atoms of
     * this one; what finds no place is returned as leftover, id to title.
     */
    method CopySections(previous: Document, outlines: map<string, Outline>) returns (leftover: Leftover)
      requires Valid() && ValidOutlines(outlines)
      modifies this`heap, this`references, this`types, this`blocks, this`inherit, this`indexed
      ensures Valid() && indexed
      ensures var st := AfterInit(old(heap), old(Indices()), items, old(indexed), outlines);
        Indices() == st.1 && (heap, leftover) == Copied(st, previous, outlines)
    {
      ghost var st := AfterInit(heap, Indices(), items, indexed, outlines);
      Init(outlines);
      leftover := CopyFrom(previous, outlines, st);
    }

    /** Lines 511-543 once this layout is indexed: the old layout is built and indexed, then copied from. */
    method CopyFrom(previous: Document, outlines: map<string, Outline>, ghost st: (seq<Cell>, Refs)) returns (leftover: Leftover)
      requires Valid() && ValidOutlines(outlines) && st == (heap, Indices())
      modifies this`heap
      ensures Valid() && Indices() == st.1
      ensures (heap, leftover) == Copied(st, previous, outlines)
    {
      ghost var h0 := heap;
      var oh, or := OpenPrevious(previous, outlines);
      leftover := CopyCategories(oh, or);
      AboveGrow(items, -1, |h0|, |heap|);
      RefsInGrow(Indices(), |h0|, |heap|);
    }

    /** Lines 513 and 519: a layout named `tmp` built from the old document, indexed on first query. */
    static method OpenPrevious(previous: Document, outlines: map<string, Outline>) returns (oh: seq<Cell>, or: Refs)
      requires ValidOutlines(outlines)
      ensures (oh, or) == Previous(previous, outlines)
    {
      var prior := new Layout("tmp", Some(previous), None);
      prior.Init(outlines);
      oh, or := prior.heap, prior.Indices();
    }

    /** The three category steps of lines 518-541, in order. */
    method CopyCategories(oh: seq<Cell>, or: Refs) returns (leftover: Leftover)
      requires ValidHeap(heap) && RefsIn(Indices(), |heap|) && ValidHeap(oh) && RefsIn(or, |oh|)
      modifies this`heap
      ensures (heap, leftover) == Sections.CopySections(old(heap), Indices(), oh, or, Categories)
    {
      ghost var h0 := heap;
      leftover := [];
      var c := 0;
      while c < |Categories|
        invariant 0 <= c <= |Categories|
        invariant (heap, leftover) == Sections.CopySections(h0, Indices(), oh, or, Categories[..c])
      {
        CategoryStep(h0, Indices(), oh, or, Categories, c, heap, leftover);
        leftover := CopyCategoryAt(Categories[c], oh, or, leftover);
        c := c + 1;
      }
      assert Categories[..|Categories|] == Categories;
    }

    /** One category (e.g. lines 518-523): copied only when this layout has a node of it. */
    method CopyCategoryAt(category: string, oh: seq<Cell>, or: Refs, leftover: Leftover) returns (leftover': Leftover)
      requires ValidHeap(heap) && RefsIn(Indices(), |heap|) && ValidHeap(oh) && RefsIn(or, |oh|)
      modifies this`heap
      ensures (heap, leftover') == CopyCategory(old(heap), Indices(), oh, or, category, leftover)
    {
      leftover' := leftover;
      if category in types {
        var data := SubtypesOf(or.types, category);
        assert TypesIn(data, |oh|);
        leftover' := CopyDataInto(data, types[category], oh, leftover);
      }
    }

    /** `copyData()` (lines 546-565): the two outer loops. */
    method CopyDataInto(data: SubtypeIndex, sections: SubtypeIndex, oh: seq<Cell>, leftover: Leftover) returns (leftover': Leftover)
      requires ValidHeap(heap) && TypesIn(sections, |heap|) && ValidHeap(oh) && TypesIn(data, |oh|)
      modifies this`heap
      ensures JobsIn(CopyJobs(data), |oh|)
      ensures (heap, leftover') == CopyData(old(heap), sections, oh, CopyJobs(data), leftover)
    {
      ghost var h0 := heap;
      leftover' := leftover;
      var i := 0;
      while i < |data|
        invariant 0 <= i <= |data| && JobsIn(CopyJobs(data[..i]), |oh|)
        invariant (heap, leftover') == CopyData(h0, sections, oh, CopyJobs(data[..i]), leftover)
      {
        CopySubtypeStep(h0, sections, oh, data, i, leftover, heap, leftover');
        leftover' := CopyBucket(sections, data[i].0, data[i].1, oh, leftover');
        i := i + 1;
      }
      assert data[..|data|] == data;
    }

    /** The old items of one subtype (lines 549-563). */
    method CopyBucket(sections: SubtypeIndex, subtype: string, bucket: Bucket, oh: seq<Cell>, leftover: Leftover)
      returns (leftover': Leftover)
      requires ValidHeap(heap) && TypesIn(sections, |heap|) && ValidHeap(oh) && BucketIn(bucket, |oh|)
      modifies this`heap
      ensures (heap, leftover') == CopyData(old(heap), sections, oh, BucketJobs(subtype, bucket), leftover)
    {
      ghost var h0 := heap;
      leftover' := leftover;
      var k := 0;
      while k < |bucket|
        invariant 0 <= k <= |bucket|
        invariant (heap, leftover') == CopyData(h0, sections, oh, BucketJobs(subtype, bucket[..k]), leftover)
      {
        TypesInGrow(sections, |h0|, |heap|);
        assert bucket[k].1 < |oh|;
        CopyItemStep(h0, sections, oh, subtype, bucket, k, leftover, heap, leftover');
        leftover' := CopyOne(sections, subtype, oh, bucket[k].1, leftover');
        k := k + 1;
      }
      assert bucket[..|bucket|] == bucket;
    }

    /**
     * One old item (lines 550-562): the first current node of its subtype
     * with an identical id takes the old item's children; failing that, an
     * old item with children is reported.
     */
    method CopyOne(sections: SubtypeIndex, subtype: string, oh: seq<Cell>, item: nat, leftover: Leftover)
      returns (leftover': Leftover)
      requires ValidHeap(heap) && TypesIn(sections, |heap|) && ValidHeap(oh) && item < |oh|
      modifies this`heap
      ensures (heap, leftover') == CopyItem(old(heap), sections, subtype, oh, item, leftover)
    {
      var o := oh[item];
      var bucket := SectionBucket(sections, subtype, |heap|);
      var found := FindSection(bucket, o.node.id);
      leftover' := leftover;
      if found.Some? {
        var (grown, _) := Graft(heap, found.value, UnfoldAll(oh, o.children));
        heap := grown;
      } else if o.children != [] {
        leftover' := Put(leftover', IdKey(o.node.id), o.node.title);
      }
    }

    /** The search of lines 553-558: the first node of `bucket` whose id is identical to `id`. */
    method FindSection(bucket: Bucket, id: Option<string>) returns (found: Option<nat>)
      requires BucketIn(bucket, |heap|)
      ensures found == FirstMatch(heap, bucket, id)
    {
      var j := 0;
      while j < |bucket|
        invariant 0 <= j <= |bucket|
        invariant forall i :: 0 <= i < j ==> heap[bucket[i].1].node.id != id
      {
        if heap[bucket[j].1].node.id == id {
          FirstMatchAt(heap, bucket, id, j);
          return Some(bucket[j].1);
        }
        j := j + 1;
      }
      return None;
    }
  
    // -------------------------------------------------------------------
    // Lookups and summaries
    // -------------------------------------------------------------------

    /** `references()` (lines 321-326): the id index, after `init()`. */
    method References(outlines: map<string, Outline>) returns (refs: map<string, nat>)
      requires Valid() && ValidOutlines(outlines)
      modifies this`heap, this`references, this`types, this`blocks, this`inherit, this`indexed
      ensures Valid() && indexed
      ensures (heap, Indices()) == AfterInit(old(heap), old(Indices()), items, old(indexed), outlines)
      ensures refs == references
    {
      Init(outlines);
      refs := references;
    }

    /** `referencesByType()` (lines 333-347), after `init()`; a missing argument is the empty string. */
    method ReferencesByType(kind: string, subtype: string, outlines: map<string, Outline>) returns (s: Selection)
      requires Valid() && ValidOutlines(outlines)
      modifies this`heap, this`references, this`types, this`blocks, this`inherit, this`indexed
      ensures Valid() && indexed
      ensures (heap, Indices()) == AfterInit(old(heap), old(Indices()), items, old(indexed), outlines)
      ensures s == Indexer.ReferencesByType(types, kind, subtype)
    {
      Init(outlines);
      s := Indexer.ReferencesByType(types, kind, subtype);
    }

    /** `find()` (lines 465-474), after `init()`: the indexed node, or a stub carrying only the id. */
    method Find(id: string, outlines: map<string, Outline>) returns (f: Found)
      requires Valid() && ValidOutlines(outlines)
      modifies this`heap, this`references, this`types, this`blocks, this`inherit, this`indexed
      ensures Valid() && indexed
      ensures (heap, Indices()) == AfterInit(old(heap), old(Indices()), items, old(indexed), outlines)
      ensures f == Indexer.Find(references, id)
    {
      Init(outlines);
      f := if id in references then Indexed(references[id]) else Stub(id);
    }

    /** `block()` (lines 480-485), after `init()`: the block directly holding the particle, if any. */
    method Block(id: string, outlines: map<string, Outline>) returns (b: Option<nat>)
      requires Valid() && ValidOutlines(outlines)
      modifies this`heap, this`references, this`types, this`blocks, this`inherit, this`indexed
      ensures Valid() && indexed
      ensures (heap, Indices()) == AfterInit(old(heap), old(Indices()), items, old(indexed), outlines)
      ensures b.Some? <==> id in blocks
      ensures b.Some? ==> b.value == blocks[id] && b.value < |heap|
    {
      Init(outlines);
      b := if id in blocks then Some(blocks[id]) else None;
    }

    /** `positions()` (lines 354-367), which indexes the layout first. */
    method Positions(outlines: map<string, Outline>) returns (list: Assoc<Value, string>)
      requires Valid() && ValidOutlines(outlines)
      modifies this`heap, this`references, this`types, this`blocks, this`inherit, this`indexed
      ensures Valid() && indexed
      ensures (heap, Indices()) == AfterInit(old(heap), old(Indices()), items, old(indexed), outlines)
      ensures list == Summaries.Positions(heap, Indices())
    {
      Init(outlines);
      list := CollectPositions();
    }

    /** The loop of `positions()` (lines 357-364): key to title, for every position that sets a key. */
    method CollectPositions() returns (list: Assoc<Value, string>)
      requires ValidHeap(heap) && RefsIn(Indices(), |heap|)
      ensures list == Summaries.Positions(heap, Indices())
    {
      BucketOfIn(types, "position", "position", |heap|);
      var bucket := Indexer.ReferencesByType(types, "position", "position").bucket;
      list := [];
      var k := 0;
      assert bucket[..0] == [];
      while k < |bucket|
        invariant 0 <= k <= |bucket| && BucketIn(bucket[..k], |heap|)
        invariant list == PutAll([], PositionEntries(heap, bucket[..k]))
      {
        PositionEntriesStep(heap, bucket, k);
        ghost var es := PositionEntries(heap, bucket[..k]);
        var n := heap[bucket[k].1].node;
        if IsSet(n.attributes, "key") {
          assert PositionEntries(heap, bucket[..k + 1]) == es + [(n.attributes["key"], n.title)];
          PutAllSnoc([], es, (n.attributes["key"], n.title));
          list := Put(list, n.attributes["key"], n.title);
        } else {
          assert PositionEntries(heap, bucket[..k + 1]) == es + [];
          assert es + [] == es;
        }
        k := k + 1;
      }
      assert bucket[..|bucket|] == bucket;
    }

    /** `sections()` (lines 374-392), which indexes the layout first. */
    method SectionTitles(outlines: map<string, Outline>) returns (list: Assoc<Key, string>)
      requires Valid() && ValidOutlines(outlines)
      modifies this`heap, this`references, this`types, this`blocks, this`inherit, this`indexed
      ensures Valid() && indexed
      ensures (heap, Indices()) == AfterInit(old(heap), old(Indices()), items, old(indexed), outlines)
      ensures list == Summaries.SectionTitles(heap, Indices())
    {
      Init(outlines);
      list := CollectSections();
    }

    /** The two loops of `sections()`: id to title over the sections, then over the off-canvas sections. */
    method CollectSections() returns (list: Assoc<Key, string>)
      requires ValidHeap(heap) && RefsIn(Indices(), |heap|)
      ensures list == Summaries.SectionTitles(heap, Indices())
    {
      var sections := Indexer.ReferencesByType(types, "section", "").subtypes;
      var offcanvas := Indexer.ReferencesByType(types, "offcanvas", "").subtypes;
      list := PutTitles(sections, []);
      list := PutTitles(offcanvas, list);
      PutAllAppend([], TitleEntries(heap, sections), TitleEntries(heap, offcanvas));
    }

    /** One of the loops of `sections()`: every bucket of a subtype index, in order. */
    method PutTitles(subs: SubtypeIndex, list0: Assoc<Key, string>) returns (list: Assoc<Key, string>)
      requires TypesIn(subs, |heap|)
      ensures list == PutAll(list0, TitleEntries(heap, subs))
    {
      list := list0;
      var i := 0;
      while i < |subs|
        invariant 0 <= i <= |subs| && TypesIn(subs[..i], |heap|)
        invariant list == PutAll(list0, TitleEntries(heap, subs[..i]))
      {
        TitleEntriesStep(heap, subs, i);
        PutAllAppend(list0, TitleEntries(heap, subs[..i]), BucketTitles(heap, subs[i].1));
        list := PutBucketTitles(subs[i].1, list);
        i := i + 1;
      }
      assert subs[..|subs|] == subs;
    }

    /** The inner loop of `sections()`: id to title over one bucket. */
    method PutBucketTitles(b: Bucket, list0: Assoc<Key, string>) returns (list: Assoc<Key, string>)
      requires BucketIn(b, |heap|)
      ensures list == PutAll(list0, BucketTitles(heap, b))
    {
      list := list0;
      var k := 0;
      while k < |b|
        invariant 0 <= k <= |b| && BucketIn(b[..k], |heap|)
        invariant list == PutAll(list0, BucketTitles(heap, b[..k]))
      {
        BucketTitlesStep(heap, b, k);
        PutAllSnoc(list0, BucketTitles(heap, b[..k]), (b[k].0, heap[b[k].1].node.title));
        list := Put(list, b[k].0, heap[b[k].1].node.title);
        k := k + 1;
      }
      assert b[..|b|] == b;
    }

    /** `particles()` (lines 397-411), which indexes the layout first. */
    method Particles(outlines: map<string, Outline>) returns (list: Assoc<string, Assoc<string, string>>)
      requires Valid() && ValidOutlines(outlines)
      modifies this`heap, this`references, this`types, this`blocks, this`inherit, this`indexed
      ensures Valid() && indexed
      ensures (heap, Indices()) == AfterInit(old(heap), old(Indices()), items, old(indexed), outlines)
      ensures list == Summaries.Particles(heap, Indices())
    {
      Init(outlines);
      list := CollectParticles();
    }

    /** The outer loop of `particles()`: the children of every indexed block, in order. */
    method CollectParticles() returns (list: Assoc<string, Assoc<string, string>>)
      requires ValidHeap(heap) && RefsIn(Indices(), |heap|)
      ensures list == Summaries.Particles(heap, Indices())
    {
      BucketOfIn(types, "block", "block", |heap|);
      var blocks := Indexer.ReferencesByType(types, "block", "block").bucket;
      list := [];
      var i := 0;
      while i < |blocks|
        invariant 0 <= i <= |blocks| && BucketIn(blocks[..i], |heap|)
        invariant list == PutParticles([], ParticleEntries(heap, blocks[..i]))
      {
        ParticleEntriesStep(heap, blocks, i);
        PutParticlesAppend([], ParticleEntries(heap, blocks[..i]), ChildEntries(heap, heap[blocks[i].1].children));
        list := PutChildParticles(heap[blocks[i].1].children, list);
        i := i + 1;
      }
      assert blocks[..|blocks|] == blocks;
    }

    /** The inner loop of `particles()` (lines 402-407): every child that is not a layout node, by subtype and id. */
    method PutChildParticles(children: seq<nat>, list0: Assoc<string, Assoc<string, string>>)
      returns (list: Assoc<string, Assoc<string, string>>)
      requires forall j :: 0 <= j < |children| ==> children[j] < |heap|
      ensures list == PutParticles(list0, ChildEntries(heap, children))
    {
      list := list0;
      var k := 0;
      assert children[..0] == [];
      while k < |children|
        invariant 0 <= k <= |children|
        invariant list == PutParticles(list0, ChildEntries(heap, children[..k]))
      {
        list := PutChildParticle(children, k, list0, list);
        k := k + 1;
      }
      assert children[..|children|] == children;
    }

    /** One child of the inner loop of `particles()`: skipped when it is a layout node, else stored. */
    method PutChildParticle(children: seq<nat>, k: nat, list0: Assoc<string, Assoc<string, string>>,
                            list: Assoc<string, Assoc<string, string>>) returns (list': Assoc<string, Assoc<string, string>>)
      requires (forall j :: 0 <= j < |children| ==> children[j] < |heap|) && k < |children|
      requires list == PutParticles(list0, ChildEntries(heap, children[..k]))
      ensures list' == PutParticles(list0, ChildEntries(heap, children[..k + 1]))
    {
      ChildEntriesStep(heap, children, k);
      ghost var es := ChildEntries(heap, children[..k]);
      var c := heap[children[k]].node;
      if !(c.layout || IsLayoutType(c.kind)) {
        ghost var e := ParticleEntry(c.subtype, IdKey(c.id), c.title);
        assert ChildEntries(heap, children[..k + 1]) == es + [e];
        PutParticlesSnoc(list0, es, e);
        list' := Put(list, c.subtype, Put(Lookup(list, c.subtype).GetOr([]), IdKey(c.id), c.title));
        assert list' == PutParticle(list, e);
      } else {
        assert ChildEntries(heap, children[..k + 1]) == es + [];
        assert es + [] == es;
        list' := list;
      }
    }

    /** `inherit()` (lines 416-426), after `init()`. */
    method InheritGroups(outlines: map<string, Outline>) returns (list: Assoc<string, seq<string>>)
      requires Valid() && ValidOutlines(outlines)
      modifies this`heap, this`references, this`types, this`blocks, this`inherit, this`indexed
      ensures Valid() && indexed
      ensures (heap, Indices()) == AfterInit(old(heap), old(Indices()), items, old(indexed), outlines)
      ensures list == Inheritance.InheritGroups(heap, inherit)
    {
      Init(outlines);
      list := CollectInherit();
    }

    /** The loop of `inherit()`: each name of the inherit list appended under its node's outline. */
    method CollectInherit() returns (list: Assoc<string, seq<string>>)
      requires RefsIn(Indices(), |heap|)
      ensures list == Inheritance.InheritGroups(heap, inherit)
    {
      list := [];
      var k := 0;
      while k < |inherit|
        invariant 0 <= k <= |inherit| && ListIn(inherit[..k], |heap|)
        invariant list == Inheritance.InheritGroups(heap, inherit[..k])
      {
        InheritGroupsStep(heap, inherit, k);
        var o := OutlineOf(heap[inherit[k].1].node);
        list := Put(list, o, Lookup(list, o).GetOr([]) + [inherit[k].0]);
        k := k + 1;
      }
      assert inherit[..|inherit|] == inherit;
    }

    /** `atoms()` (lines 435-459): the first atom of every block of the first atoms section with children. */
    method Atoms() returns (list: Option<seq<Atom>>)
      requires ValidHeap(heap) && Above(items, -1, |heap|)
      ensures list == Summaries.Atoms(heap, items)
    {
      var first := FindAtoms();
      if first.None? {
        return None;
      }
      var grids := heap[first.value].children;
      var atoms: seq<Atom> := [];
      var i := 0;
      while i < |grids|
        invariant 0 <= i <= |grids|
        invariant atoms == AtomsOfGrids(heap, grids[..i])
      {
        AtomsOfGridsStep(heap, grids, i);
        var more := GridAtoms(heap[grids[i]].children);
        atoms := atoms + more;
        i := i + 1;
      }
      assert grids[..|grids|] == grids;
      return Some(atoms);
    }

    /** The filter and shift of lines 439-442: the first top-level atoms section with children. */
    method FindAtoms() returns (first: Option<nat>)
      requires Above(items, -1, |heap|)
      ensures first == FirstAtoms(heap, items)
    {
      var k := 0;
      while k < |items|
        invariant 0 <= k <= |items|
        invariant FirstAtoms(heap, items) == FirstAtoms(heap, items[k..])
      {
        var x := items[k];
        if heap[x].node.kind == "atoms" && heap[x].children != [] {
          return Some(x);
        }
        FirstAtomsSkip(heap, items, k);
        k := k + 1;
      }
      return None;
    }

    /** The inner loop of `atoms()` (lines 447-452): the first child of each block of a grid. */
    method GridAtoms(blocks: seq<nat>) returns (atoms: seq<Atom>)
      requires ValidHeap(heap) && forall j :: 0 <= j < |blocks| ==> blocks[j] < |heap|
      ensures atoms == AtomsOfBlocks(heap, blocks)
    {
      atoms := [];
      var k := 0;
      while k < |blocks|
        invariant 0 <= k <= |blocks|
        invariant atoms == AtomsOfBlocks(heap, blocks[..k])
      {
        AtomsOfBlocksStep(heap, blocks, k);
        var b := blocks[k];
        if heap[b].children != [] {
          var n := heap[heap[b].children[0]].node;
          atoms := atoms + [Atom(n.title, n.subtype, n.attributes)];
        }
        k := k + 1;
      }
      assert blocks[..|blocks|] == blocks;
    }

    /** `buildIndex()` (lines 197-210): the meta-information of the layout and its four summaries. */
    method BuildIndex(outlines: map<string, Outline>) returns (idx: Index)
      requires Valid() && ValidOutlines(outlines)
      modifies this`heap, this`references, this`types, this`blocks, this`inherit, this`indexed
      ensures Valid() && indexed
      ensures (heap, Indices()) == AfterInit(old(heap), old(Indices()), items, old(indexed), outlines)
      ensures idx == Summaries.BuildIndex(name, timestamp, preset, heap, Indices())
    {
      var positions := Positions(outlines);
      var sections := SectionTitles(outlines);
      var particles := Particles(outlines);
      var groups := InheritGroups(outlines);
      idx := Index(name, timestamp, Version, preset, positions, sections, particles, groups);
    }

    // -------------------------------------------------------------------
    // Saving
    // -------------------------------------------------------------------

    /**
     * `save()` (lines 217-261), with the file's new modification time
     * as a parameter: an unnamed layout is refused and nothing changes;
     * otherwise the atoms go to the page head when cascading, the atoms
     * sections are removed from the top level, and the layout is stored.
     */
    method Save(cascade: bool, modified: int) returns (saved: Option<Saved>)
      requires Valid()
      modifies this`items, this`timestamp, this`present
      ensures Valid()
      ensures saved.None? <==> Names.SaveDirectory(name).None?
      ensures saved.None? ==> items == old(items) && timestamp == old(timestamp) && present == old(present)
      ensures saved.Some? ==> items == WithoutAtoms(heap, old(items)) && timestamp == modified && present
      ensures saved.Some? ==> saved.value == Saved(Names.SaveDirectory(name).value,
        if cascade then Summaries.Atoms(heap, old(items)) else None, preset, UnfoldAll(heap, items))
      ensures saved.Some? ==> forall k :: 0 <= k < |saved.value.items| ==> saved.value.items[k].node.kind != "atoms"
    {
      if FalsyString(name) {
        return None;
      }
      var s := SaveNamed(cascade, modified);
      SavedWithoutAtoms(heap, items);
      return Some(s);
    }

    /** `save()` once the name is known not to be empty. */
    method SaveNamed(cascade: bool, modified: int) returns (saved: Saved)
      requires Valid() && !FalsyString(name)
      modifies this`items, this`timestamp, this`present
      ensures Valid()
      ensures items == WithoutAtoms(heap, old(items)) && timestamp == modified && present
      ensures saved == Saved(Names.SanitizeName(name), if cascade then Summaries.Atoms(heap, old(items)) else None,
        preset, UnfoldAll(heap, items))
    {
      var rest;
      saved, rest := SavedDocument(cascade);
      items := rest;
      timestamp := modified;
      present := true;
    }

    /**
     * The document `save()` writes (lines 223-258): the sanitised directory,
     * the atoms when cascading, and the top-level items other than atoms
     * sections, which are also the items the layout keeps.
     */
    method SavedDocument(cascade: bool) returns (saved: Saved, rest: seq<nat>)
      requires Valid()
      ensures rest == WithoutAtoms(heap, items) && Above(rest, -1, |heap|) && Increasing(rest)
      ensures saved == Saved(Names.SanitizeName(name), if cascade then Summaries.Atoms(heap, items) else None,
        preset, UnfoldAll(heap, rest))
    {
      var directory := Names.SanitizeName(name);
      var atoms := Atoms();
      rest := WithoutAtomsList();
      saved := Saved(directory, if cascade then atoms else None, preset, UnfoldAll(heap, rest));
    }

    /** The loop of lines 246-250: the top-level items that are not atoms sections, in order. */
    method WithoutAtomsList() returns (rest: seq<nat>)
      requires Above(items, -1, |heap|)
      ensures rest == WithoutAtoms(heap, items)
    {
      rest := [];
      var k := 0;
      while k < |items|
        invariant 0 <= k <= |items|
        invariant rest == WithoutAtoms(heap, items[..k])
      {
        WithoutAtomsStep(heap, items, k);
        if heap[items[k]].node.kind != "atoms" {
          rest := rest + [items[k]];
        } else {
          assert rest + [] == rest;
        }
        k := k + 1;
      }
      assert items[..|items|] == items;
    }
}
}
