/**
 * The inheritance resolver (`initInheritance`): every node of the inherit
 * list borrows parts — its attributes, its block's attributes, its children —
 * from a node of another outline.
 *
 * The pass is a fold of `InheritItem` over the jobs `(outline, id)` taken
 * from the grouping `inherit()` returns before the pass starts.
 */
module Inheritance {
  import opened Php
  import opened Heap
  import opened Indexer

  /** Another outline, already loaded and indexed: its nodes, its id index and its block index. */
  datatype Outline = Outline(heap: seq<Cell>, references: map<string, nat>, blocks: map<string, nat>)

  predicate ValidOutline(o: Outline) {
    ValidHeap(o.heap) &&
    (forall id :: id in o.references ==> o.references[id] < |o.heap|) &&
    (forall id :: id in o.blocks ==> o.blocks[id] < |o.heap|)
  }

  predicate ValidOutlines(outlines: map<string, Outline>) {
    forall name :: name in outlines ==> ValidOutline(outlines[name])
  }

  /** The outline layout an inheritance marker names; one that is not available is an empty layout. */
  function OutlineNamed(outlines: map<string, Outline>, name: string): (o: Outline)
    requires ValidOutlines(outlines)
    ensures ValidOutline(o)
  {
    if name in outlines then outlines[name] else Outline([], map[], map[])
  }

  /** The attributes of the source node; a stub for an unknown id has none, read as the empty map. */
  function SourceAttributes(o: Outline, id: string): map<string, Value>
    requires ValidOutline(o)
  {
    match Find(o.references, id)
    case Indexed(s) => o.heap[s].node.attributes
    case Stub(_) => map[]
  }

  /** The children of the source node, as trees; a stub has none. */
  function SourceChildren(o: Outline, id: string): seq<Tree>
    requires ValidOutline(o)
  {
    match Find(o.references, id)
    case Indexed(s) => UnfoldAll(o.heap, o.heap[s].children)
    case Stub(_) => []
  }

  /** The attributes of the block owning `id` in the outline, without `fixed` and `size` (lines 583-584). */
  function SourceBlockAttributes(o: Outline, id: string): map<string, Value>
    requires ValidOutline(o)
  {
    if id in o.blocks then o.heap[o.blocks[id]].node.attributes - {"fixed", "size"} else map[]
  }

  /** The context copied children are re-indexed under: they borrow attributes and block, never children. */
  function CopyContext(outlineId: string): Context {
    Context(outlineId, ["attributes", "block"])
  }

  // ---------------------------------------------------------------------
  // The parts
  // ---------------------------------------------------------------------

  /**
   * The `children` part with a non-empty source (lines 588-590): the source's
   * subtrees become the children of `x`, and are indexed under `CopyContext`.
   */
  function CopyChildren(h: seq<Cell>, r: Refs, x: nat, trees: seq<Tree>, outlineId: string): (res: (seq<Cell>, Refs))
    requires ValidHeap(h) && RefsIn(r, |h|) && x < |h|
    ensures ValidHeap(res.0) && RefsIn(res.1, |res.0|) && |res.0| >= |h|
  {
    var (h2, roots) := Graft(h, x, trees);
    RefsInGrow(r, |h|, |h2|);
    var res := IndexSpec(h2, r, roots, None, Some(CopyContext(outlineId)), x);
    res
  }

  /** One iteration of the part loop (lines 578-596) for node `x` with id `id`. */
  function ApplyPart(h: seq<Cell>, r: Refs, x: nat, id: string, part: string,
                     outlineId: string, o: Outline, inheritId: string): (res: (seq<Cell>, Refs))
    requires ValidHeap(h) && RefsIn(r, |h|) && x < |h| && ValidOutline(o)
    ensures ValidHeap(res.0) && RefsIn(res.1, |res.0|) && |res.0| >= |h|
  {
    if part == "attributes" then
      var h' := SetAttributes(h, x, SourceAttributes(o, inheritId));
      SameChildrenValid(h, h');
      (h', r)
    else if part == "block" then
      if id in r.blocks then
        var b := r.blocks[id];
        var h' := SetAttributes(h, b, Union(SourceBlockAttributes(o, inheritId), h[b].node.attributes));
        SameChildrenValid(h, h');
        (h', r)
      else (h, r)
    else if part == "children" then
      var trees := SourceChildren(o, inheritId);
      if trees != [] then CopyChildren(h, r, x, trees, outlineId)
      else (SetChildren(h, x, []), r)
    else (h, r)
  }

  /** The part loop over `parts`, in order. */
  function ApplyParts(h: seq<Cell>, r: Refs, x: nat, id: string, parts: seq<string>,
                      outlineId: string, o: Outline, inheritId: string): (res: (seq<Cell>, Refs))
    requires ValidHeap(h) && RefsIn(r, |h|) && x < |h| && ValidOutline(o)
    ensures ValidHeap(res.0) && RefsIn(res.1, |res.0|) && |res.0| >= |h|
  {
    if parts == [] then (h, r)
    else
      var (h1, r1) := ApplyParts(h, r, x, id, parts[..|parts| - 1], outlineId, o, inheritId);
      ApplyPart(h1, r1, x, id, parts[|parts| - 1], outlineId, o, inheritId)
  }

  /** One more part of the part loop. */
  lemma {:induction false} PartStep(h: seq<Cell>, r: Refs, x: nat, id: string, parts: seq<string>, p: nat,
                 outlineId: string, o: Outline, inheritId: string, hA: seq<Cell>, rA: Refs)
    requires ValidHeap(h) && RefsIn(r, |h|) && x < |h| && ValidOutline(o) && p < |parts|
    requires (hA, rA) == ApplyParts(h, r, x, id, parts[..p], outlineId, o, inheritId)
    ensures ValidHeap(hA) && RefsIn(rA, |hA|) && x < |hA|
    ensures ApplyParts(h, r, x, id, parts[..p + 1], outlineId, o, inheritId) == ApplyPart(hA, rA, x, id, parts[p], outlineId, o, inheritId)
  {
    assert parts[..p + 1][..p] == parts[..p];
  }

  /** The id looked up in the outline: the marker's particle when it is not empty, the node's own id otherwise. */
  function InheritId(n: Node, id: string): string {
    if n.inherit.Some? && !FalsyString(n.inherit.value.particle) then n.inherit.value.particle else id
  }

  /**
   * One iteration of the id loop (lines 572-597): the node currently indexed
   * under `id` borrows its parts. An id no longer indexed, or a node without an
   * inheritance marker, has no parts to borrow.
   */
  function InheritItem(h: seq<Cell>, r: Refs, outlineId: string, o: Outline, id: string): (res: (seq<Cell>, Refs))
    requires ValidHeap(h) && RefsIn(r, |h|) && ValidOutline(o)
    ensures ValidHeap(res.0) && RefsIn(res.1, |res.0|) && |res.0| >= |h|
  {
    if id in r.references && h[r.references[id]].node.inherit.Some? then
      var x := r.references[id];
      var n := h[x].node;
      ApplyParts(h, r, x, id, n.inherit.value.includes, outlineId, o, InheritId(n, id))
    else (h, r)
  }

  // ---------------------------------------------------------------------
  // Grouping and the whole pass
  // ---------------------------------------------------------------------

  /** The outline a node's marker names; null (read as "") when the node has no marker. */
  function OutlineOf(n: Node): string {
    if n.inherit.Some? then n.inherit.value.outline else ""
  }

  predicate ListIn(list: Assoc<string, nat>, n: nat) {
    forall k :: 0 <= k < |list| ==> list[k].1 < n
  }

  /** `inherit()` (lines 417-427): the names of the inherit list grouped by outline, in order. */
  function InheritGroups(h: seq<Cell>, list: Assoc<string, nat>): (g: Assoc<string, seq<string>>)
    requires ListIn(list, |h|)
    ensures DistinctKeys(g)
  {
    if list == [] then []
    else
      var g := InheritGroups(h, list[..|list| - 1]);
      var o := OutlineOf(h[list[|list| - 1].1].node);
      Put(g, o, Lookup(g, o).GetOr([]) + [list[|list| - 1].0])
  }

  /** One more entry of the loop of `inherit()`. */
  lemma {:induction false} InheritGroupsStep(h: seq<Cell>, list: Assoc<string, nat>, k: nat)
    requires ListIn(list, |h|) && k < |list|
    ensures ListIn(list[..k], |h|) && ListIn(list[..k + 1], |h|)
    ensures var g := InheritGroups(h, list[..k]);
      var o := OutlineOf(h[list[k].1].node);
      InheritGroups(h, list[..k + 1]) == Put(g, o, Lookup(g, o).GetOr([]) + [list[k].0])
  {
    assert list[..k + 1][..k] == list[..k];
  }

  /** The names of the list whose node names outline `o`, in list order. */
  function NamesFor(h: seq<Cell>, list: Assoc<string, nat>, o: string): (names: seq<string>)
    requires ListIn(list, |h|)
    ensures forall n :: n in names ==> exists k :: 0 <= k < |list| && list[k].0 == n && OutlineOf(h[list[k].1].node) == o
  {
    if list == [] then []
    else
      var last := list[|list| - 1];
      var rest := NamesFor(h, list[..|list| - 1], o);
      assert forall k :: 0 <= k < |list| - 1 ==> list[..|list| - 1][k] == list[k];
      rest + if OutlineOf(h[last.1].node) == o then [last.0] else []
  }

  /**
   * The grouping is a partition by outline: the group of each outline lists
   * exactly the names whose node names that outline, in list order, and an
   * outline has a group exactly when some name falls into it.
   */
  lemma {:induction false} GroupsPartition(h: seq<Cell>, list: Assoc<string, nat>, o: string)
    requires ListIn(list, |h|)
    ensures Lookup(InheritGroups(h, list), o).GetOr([]) == NamesFor(h, list, o)
    ensures HasKey(InheritGroups(h, list), o) <==> NamesFor(h, list, o) != []
  {
    if list != [] {
      GroupsPartition(h, list[..|list| - 1], o);
    }
  }

  /** The jobs of one group: its outline paired with each of its names, in order. */
  function GroupJobs(o: string, names: seq<string>): (jobs: seq<(string, string)>)
    ensures |jobs| == |names| && forall k :: 0 <= k < |names| ==> jobs[k] == (o, names[k])
  {
    seq(|names|, k requires 0 <= k < |names| => (o, names[k]))
  }

  /** The (outline, id) pairs of the two nested loops (lines 569-572), in order. */
  function Jobs(g: Assoc<string, seq<string>>): (jobs: seq<(string, string)>)
  {
    if g == [] then []
    else
      var last := g[|g| - 1];
      Jobs(g[..|g| - 1]) + GroupJobs(last.0, last.1)
  }

  /** The jobs of one more group follow those of the groups before it. */
  lemma {:induction false} JobsSnoc(g: Assoc<string, seq<string>>, i: nat)
    requires i < |g|
    ensures Jobs(g[..i + 1]) == Jobs(g[..i]) + GroupJobs(g[i].0, g[i].1)
  {
    assert g[..i + 1][..i] == g[..i];
  }

  /** The jobs of one more name of a group follow those of the names before it. */
  lemma {:induction false} GroupJobsSnoc(o: string, names: seq<string>, k: nat)
    requires k < |names|
    ensures GroupJobs(o, names[..k + 1]) == GroupJobs(o, names[..k]) + [(o, names[k])]
  {
  }

  /** Every job comes from a group, and every member of every group is a job. */
  lemma {:induction false} JobsMembers(g: Assoc<string, seq<string>>, o: string, n: string)
    ensures (o, n) in Jobs(g) <==> exists i :: 0 <= i < |g| && g[i].0 == o && n in g[i].1
  {
    if g != [] {
      var pre := g[..|g| - 1];
      var last := g[|g| - 1];
      var tail := GroupJobs(last.0, last.1);
      JobsMembers(pre, o, n);
      assert (o, n) in tail <==> (o == last.0 && n in last.1) by {
        if o == last.0 && n in last.1 {
          var k :| 0 <= k < |last.1| && last.1[k] == n;
          assert tail[k] == (o, n);
        }
      }
      if exists i :: 0 <= i < |g| && g[i].0 == o && n in g[i].1 {
        var i :| 0 <= i < |g| && g[i].0 == o && n in g[i].1;
        if i < |g| - 1 {
          assert pre[i] == g[i];
        }
      }
      if exists i :: 0 <= i < |pre| && pre[i].0 == o && n in pre[i].1 {
        var i :| 0 <= i < |pre| && pre[i].0 == o && n in pre[i].1;
        assert g[i] == pre[i];
      }
    }
  }

  /**
   * The pass handles exactly the ids of the inherit list, each under the
   * outline its node names.
   */
  lemma {:induction false} JobsOfGroups(h: seq<Cell>, list: Assoc<string, nat>, o: string, n: string)
    requires ListIn(list, |h|)
    ensures (o, n) in Jobs(InheritGroups(h, list)) <==> n in NamesFor(h, list, o)
  {
    var g := InheritGroups(h, list);
    JobsMembers(g, o, n);
    GroupsPartition(h, list, o);
    if exists i :: 0 <= i < |g| && g[i].0 == o && n in g[i].1 {
      var i :| 0 <= i < |g| && g[i].0 == o && n in g[i].1;
      assert HasKey(g, o);
      var j :| 0 <= j < |g| && g[j] == (o, Lookup(g, o).value);
      assert i == j;
    }
    if n in NamesFor(h, list, o) {
      var j :| 0 <= j < |g| && g[j] == (o, Lookup(g, o).value);
      assert g[j].0 == o && n in g[j].1;
    }
  }

  /** The id loops as a fold of `InheritItem` over the jobs. */
  function FoldJobs(h: seq<Cell>, r: Refs, jobs: seq<(string, string)>, outlines: map<string, Outline>): (res: (seq<Cell>, Refs))
    requires ValidHeap(h) && RefsIn(r, |h|) && ValidOutlines(outlines)
    ensures ValidHeap(res.0) && RefsIn(res.1, |res.0|) && |res.0| >= |h|
  {
    if jobs == [] then (h, r)
    else
      var (h1, r1) := FoldJobs(h, r, jobs[..|jobs| - 1], outlines);
      var (o, id) := jobs[|jobs| - 1];
      InheritItem(h1, r1, o, OutlineNamed(outlines, o), id)
  }

  /** Folding over one more job. */
  lemma {:induction false} FoldJobsSnoc(h: seq<Cell>, r: Refs, jobs: seq<(string, string)>, job: (string, string), outlines: map<string, Outline>)
    requires ValidHeap(h) && RefsIn(r, |h|) && ValidOutlines(outlines)
    ensures var (h1, r1) := FoldJobs(h, r, jobs, outlines);
      FoldJobs(h, r, jobs + [job], outlines) == InheritItem(h1, r1, job.0, OutlineNamed(outlines, job.0), job.1)
  {
    assert (jobs + [job])[..|jobs|] == jobs;
  }

  /** Folding over two runs of jobs is folding over the second from where the first left off. */
  lemma {:induction false} FoldJobsAppend(h: seq<Cell>, r: Refs, a: seq<(string, string)>, b: seq<(string, string)>, outlines: map<string, Outline>)
    requires ValidHeap(h) && RefsIn(r, |h|) && ValidOutlines(outlines)
    ensures var (h1, r1) := FoldJobs(h, r, a, outlines);
      FoldJobs(h, r, a + b, outlines) == FoldJobs(h1, r1, b, outlines)
    decreases |b|
  {
    if b == [] {
      assert a + b == a;
    } else {
      var pre := b[..|b| - 1];
      FoldJobsAppend(h, r, a, pre, outlines);
      assert (a + b)[..|a + b| - 1] == a + pre;
    }
  }

  /** One more group of the outer loop: its jobs run from where the earlier groups left off. */
  lemma {:induction false} GroupStep(h: seq<Cell>, r: Refs, g: Assoc<string, seq<string>>, i: nat, outlines: map<string, Outline>,
                  hA: seq<Cell>, rA: Refs)
    requires ValidHeap(h) && RefsIn(r, |h|) && ValidOutlines(outlines) && i < |g|
    requires (hA, rA) == FoldJobs(h, r, Jobs(g[..i]), outlines)
    ensures ValidHeap(hA) && RefsIn(rA, |hA|)
    ensures FoldJobs(h, r, Jobs(g[..i + 1]), outlines) == FoldJobs(hA, rA, GroupJobs(g[i].0, g[i].1), outlines)
  {
    JobsSnoc(g, i);
    FoldJobsAppend(h, r, Jobs(g[..i]), GroupJobs(g[i].0, g[i].1), outlines);
  }

  /** One more name of a group: the item it names inherits from the group's outline. */
  lemma {:induction false} NameStep(h: seq<Cell>, r: Refs, o: string, names: seq<string>, k: nat, outlines: map<string, Outline>,
                 hA: seq<Cell>, rA: Refs)
    requires ValidHeap(h) && RefsIn(r, |h|) && ValidOutlines(outlines) && k < |names|
    requires (hA, rA) == FoldJobs(h, r, GroupJobs(o, names[..k]), outlines)
    ensures ValidHeap(hA) && RefsIn(rA, |hA|)
    ensures FoldJobs(h, r, GroupJobs(o, names[..k + 1]), outlines) == InheritItem(hA, rA, o, OutlineNamed(outlines, o), names[k])
  {
    GroupJobsSnoc(o, names, k);
    FoldJobsSnoc(h, r, GroupJobs(o, names[..k]), (o, names[k]), outlines);
  }

  /** What `initInheritance()` computes, with the groups taken before any node is touched. */
  function InheritSpec(h: seq<Cell>, r: Refs, outlines: map<string, Outline>): (res: (seq<Cell>, Refs))
    requires ValidHeap(h) && RefsIn(r, |h|) && ValidOutlines(outlines)
    ensures ValidHeap(res.0) && RefsIn(res.1, |res.0|) && |res.0| >= |h|
  {
    assert ListIn(r.inherit, |h|);
    FoldJobs(h, r, Jobs(InheritGroups(h, r.inherit)), outlines)
  }

  // ---------------------------------------------------------------------
  // What each part does
  // ---------------------------------------------------------------------

  /**
   * `attributes` (lines 580-581) replaces the node's attributes wholesale with
   * the source node's, and a source that is not indexed in the outline leaves
   * none; nothing else changes.
   */
  lemma {:induction false} AttributesReplaced(h: seq<Cell>, r: Refs, x: nat, id: string, outlineId: string, o: Outline, inheritId: string)
    requires ValidHeap(h) && RefsIn(r, |h|) && x < |h| && ValidOutline(o)
    ensures var res := ApplyPart(h, r, x, id, "attributes", outlineId, o, inheritId);
      res.1 == r && |res.0| == |h| &&
      res.0[x].node.attributes == (if inheritId in o.references then o.heap[o.references[inheritId]].node.attributes else map[]) &&
      res.0[x].node == h[x].node.(attributes := res.0[x].node.attributes) && res.0[x].children == h[x].children &&
      forall j :: 0 <= j < |h| && j != x ==> res.0[j] == h[j]
  {
  }

  /**
   * `block` (lines 582-586): the local block owning `id` keeps every key it
   * had and gains the source block's keys; on a shared key the inherited
   * value wins, except for `fixed` and `size`, which are never inherited.
   * Without a source block the local attributes are unchanged, and without a
   * local block nothing changes.
   */
  lemma {:induction false} BlockMerged(h: seq<Cell>, r: Refs, x: nat, id: string, outlineId: string, o: Outline, inheritId: string)
    requires ValidHeap(h) && RefsIn(r, |h|) && x < |h| && ValidOutline(o)
    ensures var res := ApplyPart(h, r, x, id, "block", outlineId, o, inheritId);
      res.1 == r && |res.0| == |h| &&
      (id !in r.blocks ==> res.0 == h) &&
      (id in r.blocks ==>
        var b := r.blocks[id];
        var local := h[b].node.attributes;
        var merged := res.0[b].node.attributes;
        (forall j :: 0 <= j < |h| && j != b ==> res.0[j] == h[j]) &&
        res.0[b].node == h[b].node.(attributes := merged) &&
        local.Keys <= merged.Keys &&
        (forall k :: k in merged && k !in local ==> inheritId in o.blocks && k in o.heap[o.blocks[inheritId]].node.attributes) &&
        (inheritId in o.blocks ==>
          var source := o.heap[o.blocks[inheritId]].node.attributes;
          forall k :: k in source && k != "fixed" && k != "size" ==> k in merged && merged[k] == source[k]) &&
        (forall k :: k in local && k !in SourceBlockAttributes(o, inheritId) ==> merged[k] == local[k]) &&
        (forall k :: k in SourceBlockAttributes(o, inheritId) <==>
          inheritId in o.blocks && k in o.heap[o.blocks[inheritId]].node.attributes && k != "fixed" && k != "size") &&
        (inheritId !in o.blocks ==> merged == local))
  {
    if id in r.blocks {
      var b := r.blocks[id];
      var local := h[b].node.attributes;
      assert Union(map[], local) == local;
    }
  }

  /**
   * `children` with a non-empty source (lines 588-590): the node's children
   * unfold to the source's subtrees with every content node among them
   * tagged under the outline with parts `attributes` and `block` only, so
   * children are never inherited again; the copies are new nodes, and every
   * node that existed before, other than `x`, is untouched.
   */
  lemma {:induction false} ChildrenCopied(h: seq<Cell>, r: Refs, x: nat, id: string, outlineId: string, o: Outline, inheritId: string)
    requires ValidHeap(h) && RefsIn(r, |h|) && x < |h| && ValidOutline(o)
    requires SourceChildren(o, inheritId) != []
    ensures var res := ApplyPart(h, r, x, id, "children", outlineId, o, inheritId);
      ValidHeap(res.0) && Above(res.0[x].children, |h| - 1, |res.0|) &&
      UnfoldAll(res.0, res.0[x].children) == TagTrees(SourceChildren(o, inheritId), Some(CopyContext(outlineId))) &&
      res.0[x].node == h[x].node &&
      forall j :: 0 <= j < |h| && j != x ==> res.0[j] == h[j]
  {
    var trees := SourceChildren(o, inheritId);
    var ctx := Some(CopyContext(outlineId));
    var (h2, roots) := Graft(h, x, trees);
    GraftRoundTrip(h, x, trees);
    RefsInGrow(r, |h|, |h2|);
    var res := IndexSpec(h2, r, roots, None, ctx, x);
    assert ApplyPart(h, r, x, id, "children", outlineId, o, inheritId) == res;
    IndexTagsTrees(h2, r, roots, ctx, x);
    CopyKeepsOld(h, h2, r, roots, ctx, x);
  }

  /** Re-indexing the grafted copies touches no node that existed before. */
  lemma {:induction false} CopyKeepsOld(h: seq<Cell>, h2: seq<Cell>, r: Refs, roots: seq<nat>, ctx: Option<Context>, x: nat)
    requires ValidHeap(h2) && |h2| >= |h| && x < |h| && RefsIn(r, |h2|)
    requires Above(roots, x, |h2|) && Above(roots, |h| - 1, |h2|)
    ensures var h3 := IndexSpec(h2, r, roots, None, ctx, x).0;
      |h3| == |h2| && h3[x] == h2[x] && forall j :: 0 <= j < |h| ==> h3[j] == h2[j]
  {
    var vs := Preorder(h2, roots, None, x);
    PreorderFrom(h2, roots, None, x, |h|);
    FoldTags(h2, r, vs, ctx);
    assert forall j :: 0 <= j < |h| ==> !Visited(vs, j);
  }

  /** `children` with an empty or missing source (line 592) leaves the node with no children. */
  lemma {:induction false} ChildrenCleared(h: seq<Cell>, r: Refs, x: nat, id: string, outlineId: string, o: Outline, inheritId: string)
    requires ValidHeap(h) && RefsIn(r, |h|) && x < |h| && ValidOutline(o)
    requires inheritId !in o.references || o.heap[o.references[inheritId]].children == []
    ensures var res := ApplyPart(h, r, x, id, "children", outlineId, o, inheritId);
      res.1 == r && |res.0| == |h| && res.0[x] == h[x].(children := []) &&
      forall j :: 0 <= j < |h| && j != x ==> res.0[j] == h[j]
  {
    assert SourceChildren(o, inheritId) == [];
  }

  /** An id that is not indexed, or whose node carries no marker, borrows nothing. */
  lemma {:induction false} ItemWithoutMarker(h: seq<Cell>, r: Refs, outlineId: string, o: Outline, id: string)
    requires ValidHeap(h) && RefsIn(r, |h|) && ValidOutline(o)
    requires id !in r.references || h[r.references[id]].node.inherit.None?
    ensures InheritItem(h, r, outlineId, o, id) == (h, r)
  {
  }
}
