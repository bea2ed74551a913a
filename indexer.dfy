/**
 * The reference indexer (`initReferences`): one depth-first pass over the
 * forest that fills the id index, the type/subtype index, the block index
 * and the inherit list, and tags content nodes with an inheritance context.
 *
 * The pass is specified as a fold of one loop iteration (`VisitStep`) over
 * the pre-order sequence of visits (`Preorder`); the class method that runs
 * the recursion is proved equal to it.
 */
module Indexer {
  import opened Php
  import opened Heap

  /** One bucket of the type index: id (or positional key) to node, in insertion order. */
  type Bucket = Assoc<Key, nat>

  /** The buckets of one type: subtype to bucket, in first-seen order. */
  type SubtypeIndex = Assoc<string, Bucket>

  /** The four indices `initReferences` fills. */
  datatype Refs = Refs(
    references: map<string, nat>,
    types: map<string, SubtypeIndex>,
    blocks: map<string, nat>,
    inherit: Assoc<string, nat>)

  /** The inheritance context passed down the recursion: outline and parts to borrow. */
  datatype Context = Context(outline: string, includes: seq<string>)

  /** One loop iteration of the pass: the node visited and the block passed down to it. */
  datatype Visit = Visit(at: nat, block: Option<nat>)

  /** The subtype a node is filed under: its own when not empty, its type otherwise. */
  function EffectiveSubtype(n: Node): string {
    if FalsyString(n.subtype) then n.kind else n.subtype
  }

  /** The buckets of a type, none when the type is not indexed. */
  function SubtypesOf(types: map<string, SubtypeIndex>, kind: string): SubtypeIndex {
    if kind in types then types[kind] else []
  }

  /** The bucket of a type and subtype, empty when there is none. */
  function BucketOf(types: map<string, SubtypeIndex>, kind: string, subtype: string): Bucket {
    Lookup(SubtypesOf(types, kind), subtype).GetOr([])
  }

  /** The type index with the bucket of a type and subtype replaced. */
  function PutBucket(types: map<string, SubtypeIndex>, kind: string, subtype: string, b: Bucket): (r: map<string, SubtypeIndex>)
    ensures BucketOf(r, kind, subtype) == b
    ensures forall t, s :: (t, s) != (kind, subtype) ==> BucketOf(r, t, s) == BucketOf(types, t, s)
  {
    var subs := SubtypesOf(types, kind);
    var subs' := Put(subs, subtype, b);
    var r := types[kind := subs'];
    assert SubtypesOf(r, kind) == subs';
    forall t, s | (t, s) != (kind, subtype) ensures BucketOf(r, t, s) == BucketOf(types, t, s) {
      if t == kind {
        assert Lookup(subs', s) == Lookup(subs, s);
      } else {
        assert SubtypesOf(r, t) == SubtypesOf(types, t);
      }
    }
    r
  }

  /** The type index with one keyed entry set in a bucket. */
  function PutEntry(types: map<string, SubtypeIndex>, kind: string, subtype: string, key: Key, at: nat): (r: map<string, SubtypeIndex>)
    ensures Lookup(BucketOf(r, kind, subtype), key) == Some(at)
    ensures forall k :: k != key ==> Lookup(BucketOf(r, kind, subtype), k) == Lookup(BucketOf(types, kind, subtype), k)
    ensures forall t, s :: (t, s) != (kind, subtype) ==> BucketOf(r, t, s) == BucketOf(types, t, s)
  {
    PutBucket(types, kind, subtype, Put(BucketOf(types, kind, subtype), key, at))
  }

  /** The type index with an entry appended to a bucket under the next integer key. */
  function AppendEntry(types: map<string, SubtypeIndex>, kind: string, subtype: string, at: nat): (r: map<string, SubtypeIndex>)
    ensures BucketOf(r, kind, subtype) == BucketOf(types, kind, subtype) + [(KInt(NextIndex(BucketOf(types, kind, subtype))), at)]
    ensures forall t, s :: (t, s) != (kind, subtype) ==> BucketOf(r, t, s) == BucketOf(types, t, s)
  {
    PutBucket(types, kind, subtype, Append(BucketOf(types, kind, subtype), at))
  }

  /**
   * The node as it is after a visit under `ctx` (lines 625-628): a content node
   * takes the context's outline and parts, with its own id as the source
   * particle; a structural node, or any node without a context, is unchanged.
   */
  function Tagged(n: Node, ctx: Option<Context>): Node {
    if ctx.Some? && !IsLayoutType(n.kind) then
      n.(inherit := Some(Inherit(ctx.value.outline, IdKey(n.id), ctx.value.includes)))
    else n
  }

  /** Tagging changes only the inheritance marker. */
  lemma {:induction false} TaggedKeeps(n: Node, ctx: Option<Context>)
    ensures Tagged(n, ctx).(inherit := n.inherit) == n
  {
  }

  /** Whether a node carries an inheritance marker naming a non-empty outline. */
  predicate Inherits(n: Node) {
    n.inherit.Some? && !FalsyString(n.inherit.value.outline)
  }

  /** All handles held by the indices are below `n`. */
  predicate RefsIn(r: Refs, n: nat) {
    (forall id :: id in r.references ==> r.references[id] < n) &&
    (forall id :: id in r.blocks ==> r.blocks[id] < n) &&
    (forall k :: 0 <= k < |r.inherit| ==> r.inherit[k].1 < n) &&
    TypesAllIn(r.types, n)
  }

  predicate TypesAllIn(types: map<string, SubtypeIndex>, n: nat) {
    forall t :: t in types ==> TypesIn(types[t], n)
  }

  predicate TypesIn(s: SubtypeIndex, n: nat) {
    forall j :: 0 <= j < |s| ==> BucketIn(s[j].1, n)
  }

  predicate BucketIn(b: Bucket, n: nat) {
    forall k :: 0 <= k < |b| ==> b[k].1 < n
  }

  predicate VisitsIn(vs: seq<Visit>, n: nat) {
    forall k :: 0 <= k < |vs| ==> vs[k].at < n && (vs[k].block.Some? ==> vs[k].block.value < n)
  }

  /** Handles below `n` are below any larger bound. */
  lemma {:induction false} RefsInGrow(r: Refs, n: nat, m: nat)
    requires RefsIn(r, n) && n <= m
    ensures RefsIn(r, m)
  {
    forall t | t in r.types ensures TypesIn(r.types[t], m) {
      assert TypesIn(r.types[t], n);
      forall j | 0 <= j < |r.types[t]| ensures BucketIn(r.types[t][j].1, m) {
        assert BucketIn(r.types[t][j].1, n);
      }
    }
  }

  lemma {:induction false} BucketOfIn(types: map<string, SubtypeIndex>, kind: string, subtype: string, n: nat)
    requires TypesAllIn(types, n)
    ensures BucketIn(BucketOf(types, kind, subtype), n)
  {
    var subs := SubtypesOf(types, kind);
    var b := Lookup(subs, subtype);
    if b.Some? {
      var i :| 0 <= i < |subs| && subs[i] == (subtype, b.value);
    }
  }

  lemma {:induction false} PutBucketIn(types: map<string, SubtypeIndex>, kind: string, subtype: string, b: Bucket, n: nat)
    requires TypesAllIn(types, n) && BucketIn(b, n)
    ensures TypesAllIn(PutBucket(types, kind, subtype, b), n)
  {
    var subs := SubtypesOf(types, kind);
    var subs' := Put(subs, subtype, b);
    assert TypesIn(subs, n);
    PutSubsIn(subs, subtype, b, n);
    var r := types[kind := subs'];
    assert PutBucket(types, kind, subtype, b) == r;
    forall t | t in r ensures TypesIn(r[t], n) {
      if t != kind { assert r[t] == types[t]; }
    }
  }

  lemma {:induction false} PutSubsIn(subs: SubtypeIndex, subtype: string, b: Bucket, n: nat)
    requires TypesIn(subs, n) && BucketIn(b, n)
    ensures TypesIn(Put(subs, subtype, b), n)
  {
    var subs' := Put(subs, subtype, b);
    forall j | 0 <= j < |subs'| ensures BucketIn(subs'[j].1, n) {
      if subs'[j] != (subtype, b) {
        assert subs'[j] in subs;
      }
    }
  }

  lemma {:induction false} PutIn<K(!new)>(m: Assoc<K, nat>, k: K, v: nat, n: nat)
    requires (forall j :: 0 <= j < |m| ==> m[j].1 < n) && v < n
    ensures forall j :: 0 <= j < |Put(m, k, v)| ==> Put(m, k, v)[j].1 < n
  {
    var r := Put(m, k, v);
    forall j | 0 <= j < |r| ensures r[j].1 < n {
      if r[j] != (k, v) { assert r[j] in m; }
    }
  }

  /** The heap after the node at `at` is tagged under `ctx` (lines 625-628). */
  function TagAt(h: seq<Cell>, at: nat, ctx: Option<Context>): (h': seq<Cell>)
    requires at < |h|
    ensures SameShape(h', h) && h'[at].node == Tagged(h[at].node, ctx)
    ensures forall i :: 0 <= i < |h| && i != at ==> h'[i] == h[i]
  {
    if ctx.Some? && !IsLayoutType(h[at].node.kind) then h[at := h[at].(node := Tagged(h[at].node, ctx))] else h
  }

  /** The block index after the visit (lines 621-623): with a block passed down, the node's id maps to it. */
  function BlocksAfter(blocks: map<string, nat>, n: Node, block: Option<nat>): map<string, nat> {
    if block.Some? then blocks[IdKey(n.id) := block.value] else blocks
  }

  /** The id index after the visit (line 631). */
  function ReferencesAfter(references: map<string, nat>, n: Node, at: nat): map<string, nat> {
    if n.id.Some? then references[n.id.value := at] else references
  }

  /** The type index after the visit (lines 632 and 638): keyed by id, or appended when there is none. */
  function TypesAfter(types: map<string, SubtypeIndex>, n: Node, at: nat): map<string, SubtypeIndex> {
    if n.id.Some? then PutEntry(types, n.kind, EffectiveSubtype(n), KStr(n.id.value), at)
    else AppendEntry(types, n.kind, EffectiveSubtype(n), at)
  }

  /** The inherit list after the visit (lines 634-636). */
  function InheritAfter(inherit: Assoc<string, nat>, n: Node, at: nat): Assoc<string, nat> {
    if n.id.Some? && Inherits(n) then Put(inherit, n.id.value, at) else inherit
  }

  /** The indices after the (tagged) node `n` at `at` is visited with `block` passed down (lines 617-639). */
  function IndexNode(r: Refs, n: Node, at: nat, block: Option<nat>, size: nat): (r': Refs)
    requires at < size && (block.Some? ==> block.value < size)
    requires RefsIn(r, size)
    ensures RefsIn(r', size)
  {
    TypesAfterIn(r.types, n, at, size);
    InheritAfterIn(r.inherit, n, at, size);
    Refs(ReferencesAfter(r.references, n, at), TypesAfter(r.types, n, at),
         BlocksAfter(r.blocks, n, block), InheritAfter(r.inherit, n, at))
  }

  lemma {:induction false} TypesAfterIn(types: map<string, SubtypeIndex>, n: Node, at: nat, size: nat)
    requires TypesAllIn(types, size) && at < size
    ensures TypesAllIn(TypesAfter(types, n, at), size)
  {
    if n.id.Some? {
      PutEntryIn(types, n.kind, EffectiveSubtype(n), KStr(n.id.value), at, size);
    } else {
      AppendEntryIn(types, n.kind, EffectiveSubtype(n), at, size);
    }
  }

  lemma {:induction false} PutEntryIn(types: map<string, SubtypeIndex>, kind: string, subtype: string, key: Key, at: nat, size: nat)
    requires TypesAllIn(types, size) && at < size
    ensures TypesAllIn(PutEntry(types, kind, subtype, key, at), size)
  {
    var bucket := BucketOf(types, kind, subtype);
    BucketOfIn(types, kind, subtype, size);
    PutIn(bucket, key, at, size);
    PutBucketIn(types, kind, subtype, Put(bucket, key, at), size);
  }

  lemma {:induction false} AppendEntryIn(types: map<string, SubtypeIndex>, kind: string, subtype: string, at: nat, size: nat)
    requires TypesAllIn(types, size) && at < size
    ensures TypesAllIn(AppendEntry(types, kind, subtype, at), size)
  {
    var bucket := BucketOf(types, kind, subtype);
    BucketOfIn(types, kind, subtype, size);
    PutBucketIn(types, kind, subtype, Append(bucket, at), size);
  }

  lemma {:induction false} InheritAfterIn(inherit: Assoc<string, nat>, n: Node, at: nat, size: nat)
    requires (forall k :: 0 <= k < |inherit| ==> inherit[k].1 < size) && at < size
    ensures forall k :: 0 <= k < |InheritAfter(inherit, n, at)| ==> InheritAfter(inherit, n, at)[k].1 < size
  {
    if n.id.Some? && Inherits(n) {
      PutIn(inherit, n.id.value, at, size);
    }
  }

  /** One iteration of the loop in `initReferences` (lines 617-639) for the visit `v`. */
  function VisitStep(h: seq<Cell>, r: Refs, v: Visit, ctx: Option<Context>): (res: (seq<Cell>, Refs))
    requires v.at < |h|
    requires v.block.Some? ==> v.block.value < |h|
    requires RefsIn(r, |h|)
    ensures SameShape(res.0, h) && RefsIn(res.1, |h|)
  {
    var h' := TagAt(h, v.at, ctx);
    (h', IndexNode(r, h'[v.at].node, v.at, v.block, |h|))
  }

  /** The pass as a fold of its loop iteration over a sequence of visits. */
  function FoldVisits(h: seq<Cell>, r: Refs, vs: seq<Visit>, ctx: Option<Context>): (res: (seq<Cell>, Refs))
    requires VisitsIn(vs, |h|) && RefsIn(r, |h|)
    ensures SameShape(res.0, h) && RefsIn(res.1, |h|)
  {
    if vs == [] then (h, r)
    else
      var (h1, r1) := FoldVisits(h, r, vs[..|vs| - 1], ctx);
      VisitStep(h1, r1, vs[|vs| - 1], ctx)
  }

  /**
   * The visits of `initReferences()` in order: each node,
   * then its subtree, with the block passed down reset to null under any
   * non-block node (lines 616, 641-642).
   */
  function Preorder(h: seq<Cell>, items: seq<nat>, block: Option<nat>, lo: int): (vs: seq<Visit>)
    requires ValidHeap(h) && Above(items, lo, |h|)
    requires block.Some? ==> block.value < |h|
    ensures VisitsIn(vs, |h|)
    decreases |h| - lo, |items|
  {
    if items == [] then []
    else
      var x := items[|items| - 1];
      var inner := if h[x].node.kind == "block" then Some(x) else None;
      Preorder(h, items[..|items| - 1], block, lo) + [Visit(x, block)] + Preorder(h, h[x].children, inner, x)
  }

  /** What `initReferences()` computes. */
  function IndexSpec(h: seq<Cell>, r: Refs, items: seq<nat>, block: Option<nat>, ctx: Option<Context>, lo: int): (res: (seq<Cell>, Refs))
    requires ValidHeap(h) && Above(items, lo, |h|) && RefsIn(r, |h|)
    requires block.Some? ==> block.value < |h|
    ensures SameShape(res.0, h) && ValidHeap(res.0) && RefsIn(res.1, |h|)
  {
    var res := FoldVisits(h, r, Preorder(h, items, block, lo), ctx);
    SameChildrenValid(h, res.0);
    res
  }

  /** What the top-level `initReferences()` computes: the three indices reset, `blocks` kept. */
  function IndexRoot(h: seq<Cell>, items: seq<nat>, blocks: map<string, nat>): (res: (seq<Cell>, Refs))
    requires ValidHeap(h) && Above(items, -1, |h|)
    requires forall id :: id in blocks ==> blocks[id] < |h|
    ensures SameShape(res.0, h) && ValidHeap(res.0) && RefsIn(res.1, |h|)
  {
    IndexSpec(h, Refs(map[], map[], blocks, []), items, None, None, -1)
  }

  // ---------------------------------------------------------------------
  // Structure of the fold
  // ---------------------------------------------------------------------

  /** Folding over two sequences one after the other is folding over their concatenation. */
  lemma {:induction false} FoldAppend(h: seq<Cell>, r: Refs, a: seq<Visit>, b: seq<Visit>, ctx: Option<Context>)
    requires VisitsIn(a, |h|) && VisitsIn(b, |h|) && RefsIn(r, |h|)
    ensures VisitsIn(a + b, |h|)
    ensures FoldVisits(h, r, a + b, ctx) ==
            var (h1, r1) := FoldVisits(h, r, a, ctx); FoldVisits(h1, r1, b, ctx)
  {
    if b == [] {
      assert a + b == a;
    } else {
      assert (a + b)[..|a + b| - 1] == a + b[..|b| - 1];
      FoldAppend(h, r, a, b[..|b| - 1], ctx);
    }
  }

  /** The visit order depends only on the children and types of the nodes. */
  lemma {:induction false} PreorderSameShape(a: seq<Cell>, b: seq<Cell>, items: seq<nat>, block: Option<nat>, lo: int)
    requires ValidHeap(a) && SameShape(a, b) && Above(items, lo, |a|)
    requires block.Some? ==> block.value < |a|
    ensures ValidHeap(b) && Preorder(a, items, block, lo) == Preorder(b, items, block, lo)
    decreases |a| - lo, |items|
  {
    SameChildrenValid(a, b);
    if items != [] {
      var x := items[|items| - 1];
      PreorderSameShape(a, b, items[..|items| - 1], block, lo);
      PreorderSameShape(a, b, a[x].children, if a[x].node.kind == "block" then Some(x) else None, x);
    }
  }

  // ---------------------------------------------------------------------
  // What the fold leaves in each index
  // ---------------------------------------------------------------------

  /** The handle of the last visit in `vs` whose node has id `id`. */
  function LastRef(h: seq<Cell>, vs: seq<Visit>, id: string): Option<nat>
    requires VisitsIn(vs, |h|)
  {
    if vs == [] then None
    else if h[vs[|vs| - 1].at].node.id == Some(id) then Some(vs[|vs| - 1].at)
    else LastRef(h, vs[..|vs| - 1], id)
  }

  /** The handle of the last visit in `vs` whose node has id `id`, type `kind` and effective subtype `subtype`. */
  function LastTyped(h: seq<Cell>, vs: seq<Visit>, kind: string, subtype: string, id: string): Option<nat>
    requires VisitsIn(vs, |h|)
  {
    if vs == [] then None
    else
      var n := h[vs[|vs| - 1].at].node;
      if n.id == Some(id) && n.kind == kind && EffectiveSubtype(n) == subtype then Some(vs[|vs| - 1].at)
      else LastTyped(h, vs[..|vs| - 1], kind, subtype, id)
  }

  /** The block passed down to the last visit in `vs` that has one and whose node's id key is `key`. */
  function LastBlock(h: seq<Cell>, vs: seq<Visit>, key: string): Option<nat>
    requires VisitsIn(vs, |h|)
  {
    if vs == [] then None
    else
      var v := vs[|vs| - 1];
      if v.block.Some? && IdKey(h[v.at].node.id) == key then v.block
      else LastBlock(h, vs[..|vs| - 1], key)
  }

  /** The handle of the last visit in `vs` whose node has id `id` and, once tagged, inherits. */
  function LastInherit(h: seq<Cell>, vs: seq<Visit>, ctx: Option<Context>, id: string): Option<nat>
    requires VisitsIn(vs, |h|)
  {
    if vs == [] then None
    else
      var n := h[vs[|vs| - 1].at].node;
      if n.id == Some(id) && Inherits(Tagged(n, ctx)) then Some(vs[|vs| - 1].at)
      else LastInherit(h, vs[..|vs| - 1], ctx, id)
  }

  function Or(a: Option<nat>, b: Option<nat>): Option<nat> {
    if a.Some? then a else b
  }

  /**
   * Indexing by id (lines 630-631): after the pass, `references[id]` is the
   * last visited node with that id, or what it was before when none has it.
   */
  lemma {:induction false} FoldReferences(h: seq<Cell>, r: Refs, vs: seq<Visit>, ctx: Option<Context>, id: string)
    requires VisitsIn(vs, |h|) && RefsIn(r, |h|)
    ensures MapGet(FoldVisits(h, r, vs, ctx).1.references, id) == Or(LastRef(h, vs, id), MapGet(r.references, id))
  {
    if vs != [] {
      var pre := vs[..|vs| - 1];
      FoldReferences(h, r, pre, ctx, id);
    }
  }

  /**
   * Indexing by type (lines 619, 632): after the pass, entry `id` of bucket
   * `types[kind][subtype]` is the last visited node with that id, type and
   * effective subtype, or what it was before when none has them.
   */
  lemma {:induction false} FoldTypes(h: seq<Cell>, r: Refs, vs: seq<Visit>, ctx: Option<Context>, kind: string, subtype: string, id: string)
    requires VisitsIn(vs, |h|) && RefsIn(r, |h|)
    ensures Lookup(BucketOf(FoldVisits(h, r, vs, ctx).1.types, kind, subtype), KStr(id)) ==
            Or(LastTyped(h, vs, kind, subtype, id), Lookup(BucketOf(r.types, kind, subtype), KStr(id)))
  {
    if vs != [] {
      var pre := vs[..|vs| - 1];
      FoldTypes(h, r, pre, ctx, kind, subtype, id);
      var (h1, r1) := FoldVisits(h, r, pre, ctx);
      var v := vs[|vs| - 1];
      var n := TagAt(h1, v.at, ctx)[v.at].node;
      assert n.id == h[v.at].node.id && n.kind == h[v.at].node.kind && EffectiveSubtype(n) == EffectiveSubtype(h[v.at].node);
      IndexNodeTypes(r1, n, v.at, v.block, |h|, kind, subtype, id);
    }
  }

  lemma {:induction false} IndexNodeTypes(r: Refs, n: Node, at: nat, block: Option<nat>, size: nat, kind: string, subtype: string, id: string)
    requires at < size && (block.Some? ==> block.value < size)
    requires RefsIn(r, size)
    ensures Lookup(BucketOf(IndexNode(r, n, at, block, size).types, kind, subtype), KStr(id)) ==
            if n.id == Some(id) && n.kind == kind && EffectiveSubtype(n) == subtype then Some(at)
            else Lookup(BucketOf(r.types, kind, subtype), KStr(id))
  {
    assert IndexNode(r, n, at, block, size).types == TypesAfter(r.types, n, at);
    TypesAfterLookup(r.types, n, at, kind, subtype, id);
  }

  lemma {:induction false} TypesAfterLookup(types: map<string, SubtypeIndex>, n: Node, at: nat, kind: string, subtype: string, id: string)
    ensures Lookup(BucketOf(TypesAfter(types, n, at), kind, subtype), KStr(id)) ==
            if n.id == Some(id) && n.kind == kind && EffectiveSubtype(n) == subtype then Some(at)
            else Lookup(BucketOf(types, kind, subtype), KStr(id))
  {
    if n.id.None? {
      AppendEntryLookup(types, n.kind, EffectiveSubtype(n), at, kind, subtype, id);
    } else {
      PutEntryLookup(types, n.kind, EffectiveSubtype(n), KStr(n.id.value), at, kind, subtype, KStr(id));
    }
  }

  /** Setting one entry changes the lookup of that entry only. */
  lemma {:induction false} PutEntryLookup(types: map<string, SubtypeIndex>, kind': string, subtype': string, key': Key, at: nat,
                                          kind: string, subtype: string, key: Key)
    ensures Lookup(BucketOf(PutEntry(types, kind', subtype', key', at), kind, subtype), key) ==
            if key == key' && kind == kind' && subtype == subtype' then Some(at)
            else Lookup(BucketOf(types, kind, subtype), key)
  {
  }

  /** Appending under a numeric key leaves every string key where it was. */
  lemma {:induction false} AppendEntryLookup(types: map<string, SubtypeIndex>, kind': string, subtype': string, at: nat,
                                             kind: string, subtype: string, id: string)
    ensures Lookup(BucketOf(AppendEntry(types, kind', subtype', at), kind, subtype), KStr(id)) ==
            Lookup(BucketOf(types, kind, subtype), KStr(id))
  {
    var bucket := BucketOf(types, kind', subtype');
    assert Lookup(Append(bucket, at), KStr(id)) == Lookup(bucket, KStr(id));
  }

  /**
   * Block membership (lines 621-622): after the pass, `blocks[key]` is the
   * block passed down to the last visit, with a block, of a node whose id
   * key is `key`, or what it was before when there is none.
   */
  lemma {:induction false} FoldBlocks(h: seq<Cell>, r: Refs, vs: seq<Visit>, ctx: Option<Context>, key: string)
    requires VisitsIn(vs, |h|) && RefsIn(r, |h|)
    ensures MapGet(FoldVisits(h, r, vs, ctx).1.blocks, key) == Or(LastBlock(h, vs, key), MapGet(r.blocks, key))
  {
    if vs != [] {
      var pre := vs[..|vs| - 1];
      FoldBlocks(h, r, pre, ctx, key);
    }
  }

  /**
   * The inherit list (lines 634-636): after the pass, entry `id` is the last
   * visited node with that id whose tagged form carries a non-empty outline,
   * or what it was before when there is none.
   */
  lemma {:induction false} FoldInheritList(h: seq<Cell>, r: Refs, vs: seq<Visit>, ctx: Option<Context>, id: string)
    requires VisitsIn(vs, |h|) && RefsIn(r, |h|)
    ensures Lookup(FoldVisits(h, r, vs, ctx).1.inherit, id) == Or(LastInherit(h, vs, ctx, id), Lookup(r.inherit, id))
  {
    if vs != [] {
      var pre := vs[..|vs| - 1];
      FoldInheritList(h, r, pre, ctx, id);
      var (h1, r1) := FoldVisits(h, r, pre, ctx);
      var v := vs[|vs| - 1];
      var n := TagAt(h1, v.at, ctx)[v.at].node;
      assert n == Tagged(h1[v.at].node, ctx);
      assert n == Tagged(h[v.at].node, ctx) by {
        FoldTags(h, r, pre, ctx);
        if Visited(pre, v.at) {
          TaggedTwice(h[v.at].node, ctx);
        }
      }
      IndexNodeInherit(r1, n, v.at, v.block, |h|, id);
    }
  }

  lemma {:induction false} IndexNodeInherit(r: Refs, n: Node, at: nat, block: Option<nat>, size: nat, id: string)
    requires at < size && (block.Some? ==> block.value < size)
    requires RefsIn(r, size)
    ensures Lookup(IndexNode(r, n, at, block, size).inherit, id) ==
            if n.id == Some(id) && Inherits(n) then Some(at) else Lookup(r.inherit, id)
  {
  }

  /** The visits of `vs` that reach handle `i`. */
  predicate Visited(vs: seq<Visit>, i: nat) {
    exists k :: 0 <= k < |vs| && vs[k].at == i
  }

  lemma {:induction false} FoldStep(h: seq<Cell>, r: Refs, vs: seq<Visit>, ctx: Option<Context>)
    requires vs != [] && VisitsIn(vs, |h|) && RefsIn(r, |h|)
    ensures FoldVisits(h, r, vs, ctx).0 == TagAt(FoldVisits(h, r, vs[..|vs| - 1], ctx).0, vs[|vs| - 1].at, ctx)
  {
  }

  /** Tagging a node twice under the same context is tagging it once. */
  lemma {:induction false} TaggedTwice(n: Node, ctx: Option<Context>)
    ensures Tagged(Tagged(n, ctx), ctx) == Tagged(n, ctx)
  {
  }

  /**
   * Inheritance tagging (lines 625-628): after the pass every visited node is
   * its tagged form, and every other node is untouched.
   */
  lemma {:induction false} FoldTags(h: seq<Cell>, r: Refs, vs: seq<Visit>, ctx: Option<Context>)
    requires VisitsIn(vs, |h|) && RefsIn(r, |h|)
    ensures forall i :: 0 <= i < |h| && Visited(vs, i) ==> FoldVisits(h, r, vs, ctx).0[i].node == Tagged(h[i].node, ctx)
    ensures forall i :: 0 <= i < |h| && !Visited(vs, i) ==> FoldVisits(h, r, vs, ctx).0[i] == h[i]
  {
    forall i | 0 <= i < |h|
      ensures Visited(vs, i) ==> FoldVisits(h, r, vs, ctx).0[i].node == Tagged(h[i].node, ctx)
      ensures !Visited(vs, i) ==> FoldVisits(h, r, vs, ctx).0[i] == h[i]
    {
      FoldTagAt(h, r, vs, ctx, i);
    }
  }

  lemma {:induction false} VisitedPrefix(vs: seq<Visit>, i: nat)
    requires vs != [] && vs[|vs| - 1].at != i
    ensures Visited(vs, i) <==> Visited(vs[..|vs| - 1], i)
  {
    var pre := vs[..|vs| - 1];
    if Visited(vs, i) {
      var k :| 0 <= k < |vs| && vs[k].at == i;
      assert pre[k].at == i;
    }
    if Visited(pre, i) {
      var k :| 0 <= k < |pre| && pre[k].at == i;
      assert vs[k].at == i;
    }
  }

  lemma {:induction false} FoldTagAt(h: seq<Cell>, r: Refs, vs: seq<Visit>, ctx: Option<Context>, i: nat)
    requires VisitsIn(vs, |h|) && RefsIn(r, |h|) && i < |h|
    ensures Visited(vs, i) ==> FoldVisits(h, r, vs, ctx).0[i].node == Tagged(h[i].node, ctx)
    ensures !Visited(vs, i) ==> FoldVisits(h, r, vs, ctx).0[i] == h[i]
  {
    if vs != [] {
      var pre := vs[..|vs| - 1];
      var v := vs[|vs| - 1];
      FoldTagAt(h, r, pre, ctx, i);
      FoldStep(h, r, vs, ctx);
      var h1 := FoldVisits(h, r, pre, ctx).0;
      var h2 := FoldVisits(h, r, vs, ctx).0;
      assert h2 == TagAt(h1, v.at, ctx);
      if i == v.at {
        assert h2[i].node == Tagged(h1[i].node, ctx);
        if Visited(pre, i) {
          TaggedTwice(h[i].node, ctx);
        }
      } else {
        VisitedPrefix(vs, i);
      }
    }
  }

  /**
   * Where blocks come from (lines 621-622, 641-642): in the visits of a forest
   * indexed with no block, a visit that carries a block is a direct child of
   * that block, and that block has type `block`.
   */
  lemma {:induction false} PreorderBlocks(h: seq<Cell>, items: seq<nat>, block: Option<nat>, lo: int)
    requires ValidHeap(h) && Above(items, lo, |h|)
    requires block.Some? ==> block.value < |h|
    ensures forall k :: 0 <= k < |Preorder(h, items, block, lo)| ==>
      var v := Preorder(h, items, block, lo)[k];
      v.block.Some? ==>
        (v.block == block && v.at in items) ||
        (h[v.block.value].node.kind == "block" && v.at in h[v.block.value].children)
    decreases |h| - lo, |items|
  {
    if items != [] {
      var x := items[|items| - 1];
      var inner := if h[x].node.kind == "block" then Some(x) else None;
      var a := Preorder(h, items[..|items| - 1], block, lo);
      var b := Preorder(h, h[x].children, inner, x);
      PreorderBlocks(h, items[..|items| - 1], block, lo);
      PreorderBlocks(h, h[x].children, inner, x);
      var all := Preorder(h, items, block, lo);
      assert all == a + [Visit(x, block)] + b;
      forall k | 0 <= k < |all|
        ensures all[k].block.Some? ==>
                  (all[k].block == block && all[k].at in items) ||
                  (h[all[k].block.value].node.kind == "block" && all[k].at in h[all[k].block.value].children)
      {
        if k < |a| {
          assert all[k] == a[k];
          if a[k].block == block && a[k].at in items[..|items| - 1] {
            assert a[k].at in items;
          }
        } else if k > |a| {
          assert all[k] == b[k - |a| - 1];
        } else {
          assert all[k] == Visit(x, block) && x == items[|items| - 1];
        }
      }
    }
  }

  /** The visit a node's `j`-th child receives: the node itself as block when it is a `block`, none otherwise. */
  function ChildVisit(h: seq<Cell>, x: nat, j: nat): Visit
    requires x < |h| && j < |h[x].children|
  {
    Visit(h[x].children[j], if h[x].node.kind == "block" then Some(x) else None)
  }

  /** Every child of a node visited in `vs` is visited in `all`, with the block its parent passes down. */
  predicate ChildrenIn(h: seq<Cell>, vs: seq<Visit>, all: seq<Visit>) {
    forall k, j :: 0 <= k < |vs| && vs[k].at < |h| && 0 <= j < |h[vs[k].at].children| ==> ChildVisit(h, vs[k].at, j) in all
  }

  lemma {:induction false} ChildrenInConcat(h: seq<Cell>, a: seq<Visit>, v: Visit, b: seq<Visit>)
    requires ChildrenIn(h, a, a) && ChildrenIn(h, b, b)
    requires v.at < |h| ==> forall j :: 0 <= j < |h[v.at].children| ==> ChildVisit(h, v.at, j) in b
    ensures ChildrenIn(h, a + [v] + b, a + [v] + b)
  {
    var all := a + [v] + b;
    forall k, j | 0 <= k < |all| && all[k].at < |h| && 0 <= j < |h[all[k].at].children|
      ensures ChildVisit(h, all[k].at, j) in all
    {
      if k < |a| {
        assert all[k] == a[k];
      } else if k > |a| {
        assert all[k] == b[k - |a| - 1];
      }
    }
  }

  /**
   * Conversely, each child of a `block` node in the forest is visited with
   * that block passed down, and each child of any other node with none.
   */
  lemma {:induction false} PreorderBlockChildren(h: seq<Cell>, items: seq<nat>, block: Option<nat>, lo: int)
    requires ValidHeap(h) && Above(items, lo, |h|)
    requires block.Some? ==> block.value < |h|
    ensures ChildrenIn(h, Preorder(h, items, block, lo), Preorder(h, items, block, lo))
    decreases |h| - lo, |items|
  {
    if items != [] {
      var x := items[|items| - 1];
      var inner := if h[x].node.kind == "block" then Some(x) else None;
      PreorderBlockChildren(h, items[..|items| - 1], block, lo);
      PreorderBlockChildren(h, h[x].children, inner, x);
      PreorderHeads(h, h[x].children, inner, x);
      ChildrenInConcat(h, Preorder(h, items[..|items| - 1], block, lo), Visit(x, block), Preorder(h, h[x].children, inner, x));
    }
  }

  /** Every item is visited, with the block passed in. */
  lemma {:induction false} PreorderHeads(h: seq<Cell>, items: seq<nat>, block: Option<nat>, lo: int)
    requires ValidHeap(h) && Above(items, lo, |h|)
    requires block.Some? ==> block.value < |h|
    ensures forall j :: 0 <= j < |items| ==> Visit(items[j], block) in Preorder(h, items, block, lo)
    decreases |items|
  {
    if items != [] {
      var x := items[|items| - 1];
      var inner := if h[x].node.kind == "block" then Some(x) else None;
      PreorderHeads(h, items[..|items| - 1], block, lo);
      var a := Preorder(h, items[..|items| - 1], block, lo);
      assert Preorder(h, items, block, lo) == a + [Visit(x, block)] + Preorder(h, h[x].children, inner, x);
      forall j | 0 <= j < |items| ensures Visit(items[j], block) in Preorder(h, items, block, lo) {
        if j < |items| - 1 {
          assert items[j] == items[..|items| - 1][j];
        }
      }
    }
  }

  // ---------------------------------------------------------------------
  // Lookups
  // ---------------------------------------------------------------------

  /** What `find()` returns: the indexed node, or a stub object carrying only the id (lines 465-474). */
  datatype Found = Indexed(at: nat) | Stub(id: string)

  function Find(references: map<string, nat>, id: string): (f: Found)
    ensures f.Indexed? <==> id in references
    ensures f.Indexed? ==> f.at == references[id]
    ensures f.Stub? ==> f.id == id
  {
    if id in references then Indexed(references[id]) else Stub(id)
  }

  /** What `referencesByType()` returns: every type, the subtypes of one type, or one bucket. */
  datatype Selection = AllTypes(types: map<string, SubtypeIndex>) | OneType(subtypes: SubtypeIndex) | OneSubtype(bucket: Bucket)

  /**
   * `referencesByType()` (lines 337-347): without a type, the
   * whole type index; without a subtype, the subtypes of the type (none when
   * the type is unknown); otherwise the bucket (empty when it is unknown).
   */
  function ReferencesByType(types: map<string, SubtypeIndex>, kind: string, subtype: string): (s: Selection)
    ensures s.AllTypes? <==> FalsyString(kind)
    ensures s.OneType? <==> !FalsyString(kind) && FalsyString(subtype)
    ensures s.AllTypes? ==> s.types == types
    ensures s.OneType? ==> s.subtypes == if kind in types then types[kind] else []
    ensures s.OneSubtype? && !(kind in types && HasKey(types[kind], subtype)) ==> s.bucket == []
    ensures s.OneSubtype? && kind in types && HasKey(types[kind], subtype) ==> Lookup(types[kind], subtype) == Some(s.bucket)
  {
    if FalsyString(kind) then AllTypes(types)
    else if FalsyString(subtype) then OneType(SubtypesOf(types, kind))
    else OneSubtype(BucketOf(types, kind, subtype))
  }

  // ---------------------------------------------------------------------
  // Tagging a copied subtree
  // ---------------------------------------------------------------------

  /** A tree with every node tagged under `ctx`. */
  function TagTree(t: Tree, ctx: Option<Context>): (r: Tree)
    ensures r.node == Tagged(t.node, ctx) && |r.kids| == |t.kids|
    decreases t
  {
    Tree(Tagged(t.node, ctx), seq(|t.kids|, k requires 0 <= k < |t.kids| => TagTree(t.kids[k], ctx)))
  }

  function TagTrees(ts: seq<Tree>, ctx: Option<Context>): (rs: seq<Tree>)
    ensures |rs| == |ts| && forall k :: 0 <= k < |ts| ==> rs[k] == TagTree(ts[k], ctx)
  {
    seq(|ts|, k requires 0 <= k < |ts| => TagTree(ts[k], ctx))
  }

  /** The visits of a forest are closed under taking children. */
  predicate ClosedUnderChildren(h: seq<Cell>, vs: seq<Visit>) {
    forall k, j :: 0 <= k < |vs| && vs[k].at < |h| && 0 <= j < |h[vs[k].at].children| ==>
      Visited(vs, h[vs[k].at].children[j])
  }

  lemma {:induction false} PreorderClosed(h: seq<Cell>, items: seq<nat>, block: Option<nat>, lo: int)
    requires ValidHeap(h) && Above(items, lo, |h|)
    requires block.Some? ==> block.value < |h|
    ensures ClosedUnderChildren(h, Preorder(h, items, block, lo))
    ensures forall j :: 0 <= j < |items| ==> Visited(Preorder(h, items, block, lo), items[j])
  {
    var vs := Preorder(h, items, block, lo);
    PreorderBlockChildren(h, items, block, lo);
    PreorderHeads(h, items, block, lo);
    forall k, j | 0 <= k < |vs| && vs[k].at < |h| && 0 <= j < |h[vs[k].at].children|
      ensures Visited(vs, h[vs[k].at].children[j])
    {
      var x := vs[k].at;
      var w := ChildVisit(h, x, j);
      assert w in vs;
      var i :| 0 <= i < |vs| && vs[i] == w;
      assert vs[i].at == h[x].children[j];
    }
    forall j | 0 <= j < |items| ensures Visited(vs, items[j]) {
      assert Visit(items[j], block) in vs;
      var i :| 0 <= i < |vs| && vs[i] == Visit(items[j], block);
      assert vs[i].at == items[j];
    }
  }

  /** Unfolding a visited node after the pass gives its subtree, tagged. */
  lemma {:induction false} TagUnfold(h: seq<Cell>, h': seq<Cell>, vs: seq<Visit>, ctx: Option<Context>, i: nat)
    requires ValidHeap(h) && SameChildren(h, h') && ClosedUnderChildren(h, vs)
    requires forall j :: 0 <= j < |h| && Visited(vs, j) ==> h'[j].node == Tagged(h[j].node, ctx)
    requires i < |h| && Visited(vs, i)
    ensures ValidHeap(h') && Unfold(h', i) == TagTree(Unfold(h, i), ctx)
    decreases |h| - i
  {
    SameChildrenValid(h, h');
    var c := h[i].children;
    assert h'[i].children == c;
    var k0 :| 0 <= k0 < |vs| && vs[k0].at == i;
    forall k | 0 <= k < |c| ensures Unfold(h', c[k]) == TagTree(Unfold(h, c[k]), ctx) {
      assert Visited(vs, h[vs[k0].at].children[k]);
      TagUnfold(h, h', vs, ctx, c[k]);
    }
    assert Unfold(h', i).kids == TagTree(Unfold(h, i), ctx).kids;
  }

  /**
   * Indexing a forest under a context leaves every tree of it tagged: the
   * subtrees of `items` after the pass are the tagged subtrees from before.
   */
  lemma {:induction false} IndexTagsTrees(h: seq<Cell>, r: Refs, items: seq<nat>, ctx: Option<Context>, lo: int)
    requires ValidHeap(h) && Above(items, lo, |h|) && RefsIn(r, |h|)
    ensures UnfoldAll(IndexSpec(h, r, items, None, ctx, lo).0, items) == TagTrees(UnfoldAll(h, items), ctx)
  {
    var vs := Preorder(h, items, None, lo);
    var h' := FoldVisits(h, r, vs, ctx).0;
    assert IndexSpec(h, r, items, None, ctx, lo).0 == h';
    assert SameChildren(h, h');
    TagsAfterIndex(h, r, items, ctx, lo);
    PreorderClosed(h, items, None, lo);
    forall k | 0 <= k < |items| ensures Unfold(h', items[k]) == TagTree(Unfold(h, items[k]), ctx) {
      TagUnfold(h, h', vs, ctx, items[k]);
    }
  }

  lemma {:induction false} TagsAfterIndex(h: seq<Cell>, r: Refs, items: seq<nat>, ctx: Option<Context>, lo: int)
    requires ValidHeap(h) && Above(items, lo, |h|) && RefsIn(r, |h|)
    ensures forall j :: 0 <= j < |h| && Visited(Preorder(h, items, None, lo), j) ==>
      FoldVisits(h, r, Preorder(h, items, None, lo), ctx).0[j].node == Tagged(h[j].node, ctx)
  {
    FoldTags(h, r, Preorder(h, items, None, lo), ctx);
  }

  /** A pass over a forest whose roots are all at least `m` visits only handles from `m` on. */
  lemma {:induction false} PreorderFrom(h: seq<Cell>, items: seq<nat>, block: Option<nat>, lo: int, m: nat)
    requires ValidHeap(h) && Above(items, lo, |h|) && Above(items, m - 1, |h|)
    requires block.Some? ==> block.value < |h|
    ensures forall k :: 0 <= k < |Preorder(h, items, block, lo)| ==> Preorder(h, items, block, lo)[k].at >= m
    decreases |h| - lo, |items|
  {
    if items != [] {
      var x := items[|items| - 1];
      PreorderFrom(h, items[..|items| - 1], block, lo, m);
      PreorderFrom(h, h[x].children, if h[x].node.kind == "block" then Some(x) else None, x, m);
    }
  }

  /** Folding over `a`, one visit `v`, then `b`. */
  lemma {:induction false} FoldSnoc(h: seq<Cell>, r: Refs, a: seq<Visit>, v: Visit, b: seq<Visit>, ctx: Option<Context>,
                 hA: seq<Cell>, rA: Refs, hB: seq<Cell>, rB: Refs)
    requires VisitsIn(a, |h|) && VisitsIn(b, |h|) && RefsIn(r, |h|)
    requires v.at < |h| && (v.block.Some? ==> v.block.value < |h|)
    requires (hA, rA) == FoldVisits(h, r, a, ctx) && (hB, rB) == VisitStep(hA, rA, v, ctx)
    ensures VisitsIn(a + [v] + b, |h|) && |hB| == |h| && RefsIn(rB, |hB|)
    ensures FoldVisits(h, r, a + [v] + b, ctx) == FoldVisits(hB, rB, b, ctx)
  {
    FoldLast(h, r, a, v, ctx);
    FoldAppend(h, r, a + [v], b, ctx);
  }

  /** The pass over one more visit is the pass so far followed by that visit. */
  lemma {:induction false} FoldLast(h: seq<Cell>, r: Refs, a: seq<Visit>, v: Visit, ctx: Option<Context>)
    requires VisitsIn(a, |h|) && RefsIn(r, |h|)
    requires v.at < |h| && (v.block.Some? ==> v.block.value < |h|)
    ensures VisitsIn(a + [v], |h|)
    ensures FoldVisits(h, r, a + [v], ctx) == var (hA, rA) := FoldVisits(h, r, a, ctx); VisitStep(hA, rA, v, ctx)
  {
    assert (a + [v])[..|a|] == a;
  }

  /** The visits of one more node of a list: those of the list so far, the node, then its subtree. */
  lemma {:induction false} PreorderSnoc(h: seq<Cell>, items: seq<nat>, i: nat, block: Option<nat>, lo: int)
    requires ValidHeap(h) && Above(items, lo, |h|) && i < |items|
    requires block.Some? ==> block.value < |h|
    ensures Above(items[..i], lo, |h|) && Above(items[..i + 1], lo, |h|)
    ensures Preorder(h, items[..i + 1], block, lo) ==
      Preorder(h, items[..i], block, lo) + [Visit(items[i], block)] +
      Preorder(h, h[items[i]].children, if h[items[i]].node.kind == "block" then Some(items[i]) else None, items[i])
  {
    assert items[..i + 1][..i] == items[..i];
  }

  /**
   * One iteration of the loop of `initReferences` (lines 617-643) on the node
   * at `x`: the node is visited, then its children are indexed, with the
   * node itself as their block when it is a block and no block otherwise.
   */
  function EntrySpec(h: seq<Cell>, r: Refs, x: nat, block: Option<nat>, ctx: Option<Context>): (res: (seq<Cell>, Refs))
    requires ValidHeap(h) && x < |h| && RefsIn(r, |h|)
    requires block.Some? ==> block.value < |h|
    ensures SameShape(res.0, h) && ValidHeap(res.0) && RefsIn(res.1, |h|)
  {
    var (hB, rB) := VisitStep(h, r, Visit(x, block), ctx);
    SameChildrenValid(h, hB);
    var res := IndexSpec(hB, rB, hB[x].children, if hB[x].node.kind == "block" then Some(x) else None, ctx, x);
    SameShapeTrans(res.0, hB, h);
    res
  }

  /** Indexing one more node of a list is indexing the list so far, then that node's entry. */
  lemma {:induction false} IndexSpecStep(h: seq<Cell>, r: Refs, items: seq<nat>, i: nat, block: Option<nat>, ctx: Option<Context>, lo: int,
                      hA: seq<Cell>, rA: Refs)
    requires ValidHeap(h) && Above(items, lo, |h|) && RefsIn(r, |h|) && i < |items|
    requires block.Some? ==> block.value < |h|
    requires Above(items[..i], lo, |h|) && (hA, rA) == IndexSpec(h, r, items[..i], block, ctx, lo)
    ensures Above(items[..i + 1], lo, |h|) && ValidHeap(hA) && RefsIn(rA, |hA|) && |hA| == |h|
    ensures IndexSpec(h, r, items[..i + 1], block, ctx, lo) == EntrySpec(hA, rA, items[i], block, ctx)
  {
    var x := items[i];
    var inner := if h[x].node.kind == "block" then Some(x) else None;
    var (hB, rB) := VisitStep(hA, rA, Visit(x, block), ctx);
    PreorderSnoc(h, items, i, block, lo);
    FoldSnoc(h, r, Preorder(h, items[..i], block, lo), Visit(x, block), Preorder(h, h[x].children, inner, x), ctx, hA, rA, hB, rB);
    assert SameShape(hA, h) && SameShape(hB, hA);
    SameShapeTrans(hB, hA, h);
    SameChildrenValid(h, hB);
    PreorderSameShape(h, hB, h[x].children, inner, x);
  }
}
