/**
 * The read-only summaries of an indexed layout (`positions`, `sections`,
 * `particles`, `atoms`, `buildIndex`), the preset defaults of the
 * constructor, and the freshness test and default fill applied when a saved
 * index is loaded.
 */
module Summaries {
  import opened Php
  import opened Heap
  import opened Indexer
  import opened Inheritance

  /** `static::VERSION` (line 37). */
  const Version: int := 3

  /** The image a preset falls back to (lines 165 and 812). */
  const DefaultImage: string := "gantry-admin://images/layouts/default.png"

  // ---------------------------------------------------------------------
  // positions()
  // ---------------------------------------------------------------------

  /** What one position contributes (lines 359-363): its `key` attribute and title, when the key is set. */
  function PositionEntry(n: Node): Option<(Value, string)> {
    if IsSet(n.attributes, "key") then Some((n.attributes["key"], n.title)) else None
  }

  function PositionEntries(h: seq<Cell>, bucket: Bucket): (es: seq<(Value, string)>)
    requires BucketIn(bucket, |h|)
    ensures forall e :: e in es ==> exists k :: 0 <= k < |bucket| && PositionEntry(h[bucket[k].1].node) == Some(e)
    ensures forall k :: 0 <= k < |bucket| && PositionEntry(h[bucket[k].1].node).Some? ==>
      PositionEntry(h[bucket[k].1].node).value in es
  {
    if bucket == [] then []
    else
      var pre := bucket[..|bucket| - 1];
      assert forall k :: 0 <= k < |pre| ==> pre[k] == bucket[k];
      var e := PositionEntry(h[bucket[|bucket| - 1].1].node);
      PositionEntries(h, pre) + if e.Some? then [e.value] else []
  }

  /** `positions()` (lines 354-367): position key to title, over the `position`/`position` bucket. */
  function Positions(h: seq<Cell>, r: Refs): Assoc<Value, string>
    requires RefsIn(r, |h|)
  {
    BucketOfIn(r.types, "position", "position", |h|);
    PutAll([], PositionEntries(h, BucketOf(r.types, "position", "position")))
  }

  /** One more position of the loop of `positions()`. */
  lemma {:induction false} PositionEntriesStep(h: seq<Cell>, bucket: Bucket, k: nat)
    requires BucketIn(bucket, |h|) && k < |bucket|
    ensures BucketIn(bucket[..k], |h|) && BucketIn(bucket[..k + 1], |h|)
    ensures var e := PositionEntry(h[bucket[k].1].node);
      PositionEntries(h, bucket[..k + 1]) == PositionEntries(h, bucket[..k]) + if e.Some? then [e.value] else []
  {
    assert bucket[..k + 1][..k] == bucket[..k];
  }

  /** The position that sets `key`, among the bucket's positions. */
  predicate SetsKey(h: seq<Cell>, bucket: Bucket, k: int, key: Value)
    requires BucketIn(bucket, |h|) && 0 <= k < |bucket|
  {
    IsSet(h[bucket[k].1].node.attributes, "key") && h[bucket[k].1].node.attributes["key"] == key
  }

  /**
   * A key is listed exactly when some indexed position sets it, and it maps
   * to the title of the last such position.
   */
  lemma {:induction false} PositionsLookup(h: seq<Cell>, r: Refs, key: Value)
    requires RefsIn(r, |h|)
    ensures var bucket := BucketOf(r.types, "position", "position");
      BucketIn(bucket, |h|) &&
      Lookup(Positions(h, r), key) == LastValue(PositionEntries(h, bucket), key) &&
      (HasKey(Positions(h, r), key) <==> exists k :: 0 <= k < |bucket| && SetsKey(h, bucket, k, key))
  {
    var bucket := BucketOf(r.types, "position", "position");
    BucketOfIn(r.types, "position", "position", |h|);
    PutAllLookup([], PositionEntries(h, bucket), key);
    PositionEntriesKeys(h, bucket, key);
  }

  lemma {:induction false} PositionEntriesKeys(h: seq<Cell>, bucket: Bucket, key: Value)
    requires BucketIn(bucket, |h|)
    ensures LastValue(PositionEntries(h, bucket), key).Some? <==> exists k :: 0 <= k < |bucket| && SetsKey(h, bucket, k, key)
  {
    var es := PositionEntries(h, bucket);
    if LastValue(es, key).Some? {
      var e := (key, LastValue(es, key).value);
      assert e in es;
      var k :| 0 <= k < |bucket| && PositionEntry(h[bucket[k].1].node) == Some(e);
      assert SetsKey(h, bucket, k, key);
    }
    if exists k :: 0 <= k < |bucket| && SetsKey(h, bucket, k, key) {
      var k :| 0 <= k < |bucket| && SetsKey(h, bucket, k, key);
      var e := PositionEntry(h[bucket[k].1].node).value;
      assert e in es;
      var i :| 0 <= i < |es| && es[i] == e;
      assert es[i].0 == key;
    }
  }

  // ---------------------------------------------------------------------
  // sections()
  // ---------------------------------------------------------------------

  /** The (id, title) pairs of one bucket, in order (lines 378-380). */
  function BucketTitles(h: seq<Cell>, b: Bucket): (es: seq<(Key, string)>)
    requires BucketIn(b, |h|)
    ensures |es| == |b| && forall k :: 0 <= k < |b| ==> es[k] == (b[k].0, h[b[k].1].node.title)
  {
    seq(|b|, k requires 0 <= k < |b| => (b[k].0, h[b[k].1].node.title))
  }

  /** One more entry of the inner loop of `sections()`. */
  lemma {:induction false} BucketTitlesStep(h: seq<Cell>, b: Bucket, k: nat)
    requires BucketIn(b, |h|) && k < |b|
    ensures BucketIn(b[..k], |h|) && BucketIn(b[..k + 1], |h|)
    ensures BucketTitles(h, b[..k + 1]) == BucketTitles(h, b[..k]) + [(b[k].0, h[b[k].1].node.title)]
  {
  }

  /** One more bucket of the outer loop of `sections()`. */
  lemma {:induction false} TitleEntriesStep(h: seq<Cell>, subs: SubtypeIndex, i: nat)
    requires TypesIn(subs, |h|) && i < |subs|
    ensures TypesIn(subs[..i], |h|) && TypesIn(subs[..i + 1], |h|) && BucketIn(subs[i].1, |h|)
    ensures TitleEntries(h, subs[..i + 1]) == TitleEntries(h, subs[..i]) + BucketTitles(h, subs[i].1)
  {
    assert subs[..i + 1][..i] == subs[..i];
  }

  /** The (id, title) pairs of every bucket of a subtype index, in order (lines 377-381). */
  function TitleEntries(h: seq<Cell>, subs: SubtypeIndex): (es: seq<(Key, string)>)
    requires TypesIn(subs, |h|)
    ensures forall e :: e in es ==> exists i, k :: (0 <= i < |subs| && 0 <= k < |subs[i].1| &&
      e == (subs[i].1[k].0, h[subs[i].1[k].1].node.title))
  {
    if subs == [] then []
    else
      var pre := subs[..|subs| - 1];
      assert TypesIn(pre, |h|) by {
        assert forall j :: 0 <= j < |pre| ==> pre[j] == subs[j];
      }
      var rest := TitleEntries(h, pre);
      var b := subs[|subs| - 1].1;
      assert BucketIn(b, |h|);
      var tail := BucketTitles(h, b);
      assert forall e :: e in rest ==> exists i, k :: (0 <= i < |subs| && 0 <= k < |subs[i].1| &&
        e == (subs[i].1[k].0, h[subs[i].1[k].1].node.title)) by {
        forall e | e in rest ensures exists i, k :: (0 <= i < |subs| && 0 <= k < |subs[i].1| &&
          e == (subs[i].1[k].0, h[subs[i].1[k].1].node.title)) {
          var i, k :| 0 <= i < |pre| && 0 <= k < |pre[i].1| && e == (pre[i].1[k].0, h[pre[i].1[k].1].node.title);
          assert pre[i] == subs[i];
        }
      }
      assert forall e :: e in tail ==> exists k :: 0 <= k < |b| && e == tail[k] && tail[k] == (subs[|subs| - 1].1[k].0, h[subs[|subs| - 1].1[k].1].node.title);
      rest + tail
  }

  /** `sections()` (lines 374-392): id to title over the section buckets, then the off-canvas buckets. */
  function SectionTitles(h: seq<Cell>, r: Refs): Assoc<Key, string>
    requires RefsIn(r, |h|)
  {
    PutAll([], TitleEntries(h, SubtypesOf(r.types, "section")) + TitleEntries(h, SubtypesOf(r.types, "offcanvas")))
  }

  /**
   * An off-canvas section overrides a section with the same id; every listed
   * title belongs to a section or off-canvas section indexed under that id.
   */
  lemma {:induction false} SectionTitlesLookup(h: seq<Cell>, r: Refs, id: Key)
    requires RefsIn(r, |h|)
    ensures var s := TitleEntries(h, SubtypesOf(r.types, "section"));
      var o := TitleEntries(h, SubtypesOf(r.types, "offcanvas"));
      Lookup(SectionTitles(h, r), id) == (if LastValue(o, id).Some? then LastValue(o, id) else LastValue(s, id))
  {
    var s := TitleEntries(h, SubtypesOf(r.types, "section"));
    var o := TitleEntries(h, SubtypesOf(r.types, "offcanvas"));
    PutAllLookup([], s + o, id);
    LastValueAppend(s, o, id);
  }

  // ---------------------------------------------------------------------
  // particles()
  // ---------------------------------------------------------------------

  /** A particle as `particles()` lists it: its raw subtype, its id key and its title. */
  datatype ParticleEntry = ParticleEntry(subtype: string, id: string, title: string)

  /** A child that `particles()` skips: one marked as layout, or one of a structural type (line 403). */
  predicate SkippedParticle(n: Node) {
    n.layout || IsLayoutType(n.kind)
  }

  function ChildEntries(h: seq<Cell>, children: seq<nat>): (es: seq<ParticleEntry>)
    requires forall k :: 0 <= k < |children| ==> children[k] < |h|
    ensures forall e :: e in es ==> exists k :: (0 <= k < |children| && !SkippedParticle(h[children[k]].node) &&
      e == ParticleEntry(h[children[k]].node.subtype, IdKey(h[children[k]].node.id), h[children[k]].node.title))
    ensures forall k :: 0 <= k < |children| && !SkippedParticle(h[children[k]].node) ==>
      ParticleEntry(h[children[k]].node.subtype, IdKey(h[children[k]].node.id), h[children[k]].node.title) in es
  {
    if children == [] then []
    else
      var pre := children[..|children| - 1];
      var c := h[children[|children| - 1]].node;
      assert forall k :: 0 <= k < |pre| ==> pre[k] == children[k];
      ChildEntries(h, pre) + if SkippedParticle(c) then [] else [ParticleEntry(c.subtype, IdKey(c.id), c.title)]
  }

  /** The particles directly inside the blocks of the `block`/`block` bucket, in order (lines 400-408). */
  function ParticleEntries(h: seq<Cell>, blocks: Bucket): (es: seq<ParticleEntry>)
    requires ValidHeap(h) && BucketIn(blocks, |h|)
  {
    if blocks == [] then []
    else
      var b := blocks[|blocks| - 1].1;
      ParticleEntries(h, blocks[..|blocks| - 1]) + ChildEntries(h, h[b].children)
  }

  /** The list with one particle's title filed under its subtype and id. */
  function PutParticle(list: Assoc<string, Assoc<string, string>>, e: ParticleEntry): Assoc<string, Assoc<string, string>> {
    Put(list, e.subtype, Put(Lookup(list, e.subtype).GetOr([]), e.id, e.title))
  }

  function PutParticles(list: Assoc<string, Assoc<string, string>>, es: seq<ParticleEntry>): Assoc<string, Assoc<string, string>> {
    if es == [] then list else PutParticle(PutParticles(list, es[..|es| - 1]), es[|es| - 1])
  }

  /** `particles()` (lines 397-411): subtype to (id to title). */
  function Particles(h: seq<Cell>, r: Refs): Assoc<string, Assoc<string, string>>
    requires ValidHeap(h) && RefsIn(r, |h|)
  {
    BucketOfIn(r.types, "block", "block", |h|);
    PutParticles([], ParticleEntries(h, BucketOf(r.types, "block", "block")))
  }

  /** One more child of the inner loop of `particles()`. */
  lemma {:induction false} ChildEntriesStep(h: seq<Cell>, children: seq<nat>, k: nat)
    requires (forall j :: 0 <= j < |children| ==> children[j] < |h|) && k < |children|
    ensures var c := h[children[k]].node;
      ChildEntries(h, children[..k + 1]) ==
      ChildEntries(h, children[..k]) + if SkippedParticle(c) then [] else [ParticleEntry(c.subtype, IdKey(c.id), c.title)]
  {
    assert children[..k + 1][..k] == children[..k];
  }

  /** One more block of the outer loop of `particles()`. */
  lemma {:induction false} ParticleEntriesStep(h: seq<Cell>, blocks: Bucket, i: nat)
    requires ValidHeap(h) && BucketIn(blocks, |h|) && i < |blocks|
    ensures BucketIn(blocks[..i], |h|) && BucketIn(blocks[..i + 1], |h|)
    ensures ParticleEntries(h, blocks[..i + 1]) == ParticleEntries(h, blocks[..i]) + ChildEntries(h, h[blocks[i].1].children)
  {
    assert blocks[..i + 1][..i] == blocks[..i];
  }

  /** One more particle store at the end of a loop of stores. */
  lemma {:induction false} PutParticlesSnoc(list: Assoc<string, Assoc<string, string>>, es: seq<ParticleEntry>, e: ParticleEntry)
    ensures PutParticles(list, es + [e]) == PutParticle(PutParticles(list, es), e)
  {
    assert (es + [e])[..|es|] == es;
  }

  /** Two loops of particle stores, one after the other, are one loop over both lists. */
  lemma {:induction false} PutParticlesAppend(list: Assoc<string, Assoc<string, string>>, a: seq<ParticleEntry>, b: seq<ParticleEntry>)
    ensures PutParticles(list, a + b) == PutParticles(PutParticles(list, a), b)
    decreases |b|
  {
    if b == [] {
      assert a + b == a;
    } else {
      assert (a + b)[..|a + b| - 1] == a + b[..|b| - 1];
      PutParticlesAppend(list, a, b[..|b| - 1]);
    }
  }

  /** The title of the last entry with this subtype and id. */
  function LastTitle(es: seq<ParticleEntry>, subtype: string, id: string): (t: Option<string>)
    ensures t.Some? ==> ParticleEntry(subtype, id, t.value) in es
  {
    if es == [] then None
    else if es[|es| - 1].subtype == subtype && es[|es| - 1].id == id then Some(es[|es| - 1].title)
    else
      var t := LastTitle(es[..|es| - 1], subtype, id);
      assert t.Some? ==> ParticleEntry(subtype, id, t.value) in es[..|es| - 1];
      t
  }

  /**
   * A particle is listed under its subtype and id with the title of the last
   * particle listed there, and nothing else is listed.
   */
  lemma {:induction false} ParticlesLookup(list: Assoc<string, Assoc<string, string>>, es: seq<ParticleEntry>, subtype: string, id: string)
    requires list == []
    ensures Lookup(Lookup(PutParticles(list, es), subtype).GetOr([]), id) == LastTitle(es, subtype, id)
  {
    if es != [] {
      ParticlesLookup(list, es[..|es| - 1], subtype, id);
    }
  }

  // ---------------------------------------------------------------------
  // atoms()
  // ---------------------------------------------------------------------

  /** One atom as `atoms()` lists it. */
  datatype Atom = Atom(title: string, subtype: string, attributes: map<string, Value>)

  /** The first top-level node of type `atoms` that has children (lines 439-442). */
  function FirstAtoms(h: seq<Cell>, items: seq<nat>): (a: Option<nat>)
    requires forall k :: 0 <= k < |items| ==> items[k] < |h|
    ensures a.Some? ==> a.value in items && h[a.value].node.kind == "atoms" && h[a.value].children != []
    ensures a.None? ==> forall k :: 0 <= k < |items| ==> h[items[k]].node.kind != "atoms" || h[items[k]].children == []
    ensures a.Some? ==> exists k :: (0 <= k < |items| && items[k] == a.value &&
      forall j :: 0 <= j < k ==> h[items[j]].node.kind != "atoms" || h[items[j]].children == [])
  {
    if items == [] then None
    else if h[items[0]].node.kind == "atoms" && h[items[0]].children != [] then Some(items[0])
    else
      var rest := items[1..];
      var a := FirstAtoms(h, rest);
      assert forall k :: 1 <= k < |items| ==> items[k] == rest[k - 1];
      if a.Some? then
        var k :| 0 <= k < |rest| && rest[k] == a.value &&
          forall j :: 0 <= j < k ==> h[rest[j]].node.kind != "atoms" || h[rest[j]].children == [];
        assert items[k + 1] == a.value;
        a
      else a
  }

  /** The atom a block holds: its first child, if it has one (lines 448-451). */
  function AtomOf(h: seq<Cell>, block: nat): seq<Atom>
    requires ValidHeap(h) && block < |h|
  {
    if h[block].children != [] then
      var n := h[h[block].children[0]].node;
      [Atom(n.title, n.subtype, n.attributes)]
    else []
  }

  function AtomsOfBlocks(h: seq<Cell>, blocks: seq<nat>): seq<Atom>
    requires ValidHeap(h) && forall k :: 0 <= k < |blocks| ==> blocks[k] < |h|
  {
    if blocks == [] then [] else AtomsOfBlocks(h, blocks[..|blocks| - 1]) + AtomOf(h, blocks[|blocks| - 1])
  }

  function AtomsOfGrids(h: seq<Cell>, grids: seq<nat>): seq<Atom>
    requires ValidHeap(h) && forall k :: 0 <= k < |grids| ==> grids[k] < |h|
  {
    if grids == [] then []
    else AtomsOfGrids(h, grids[..|grids| - 1]) + AtomsOfBlocks(h, h[grids[|grids| - 1]].children)
  }

  /** An item that is not an atoms section with children is passed over by the search. */
  lemma {:induction false} FirstAtomsSkip(h: seq<Cell>, items: seq<nat>, k: nat)
    requires (forall j :: 0 <= j < |items| ==> items[j] < |h|) && k < |items|
    requires !(h[items[k]].node.kind == "atoms" && h[items[k]].children != [])
    ensures FirstAtoms(h, items[k..]) == FirstAtoms(h, items[k + 1..])
  {
    assert items[k..][1..] == items[k + 1..];
  }

  /** One more block of the inner loop of `atoms()`. */
  lemma {:induction false} AtomsOfBlocksStep(h: seq<Cell>, blocks: seq<nat>, k: nat)
    requires ValidHeap(h) && (forall j :: 0 <= j < |blocks| ==> blocks[j] < |h|) && k < |blocks|
    ensures AtomsOfBlocks(h, blocks[..k + 1]) == AtomsOfBlocks(h, blocks[..k]) + AtomOf(h, blocks[k])
  {
    assert blocks[..k + 1][..k] == blocks[..k];
  }

  /** One more grid of the outer loop of `atoms()`. */
  lemma {:induction false} AtomsOfGridsStep(h: seq<Cell>, grids: seq<nat>, i: nat)
    requires ValidHeap(h) && (forall j :: 0 <= j < |grids| ==> grids[j] < |h|) && i < |grids|
    ensures AtomsOfGrids(h, grids[..i + 1]) == AtomsOfGrids(h, grids[..i]) + AtomsOfBlocks(h, h[grids[i]].children)
  {
    assert grids[..i + 1][..i] == grids[..i];
  }

  /** `atoms()` (lines 435-459): null when there is no atoms section with children. */
  function Atoms(h: seq<Cell>, items: seq<nat>): (list: Option<seq<Atom>>)
    requires ValidHeap(h) && forall k :: 0 <= k < |items| ==> items[k] < |h|
    ensures list.None? <==> forall k :: 0 <= k < |items| ==> h[items[k]].node.kind != "atoms" || h[items[k]].children == []
  {
    match FirstAtoms(h, items)
    case None => None
    case Some(a) => Some(AtomsOfGrids(h, h[a].children))
  }

  /** The block's first child is the atom `a`. */
  predicate HoldsAtom(h: seq<Cell>, block: nat, a: Atom)
    requires ValidHeap(h) && block < |h|
  {
    h[block].children != [] &&
    var n := h[h[block].children[0]].node;
    a == Atom(n.title, n.subtype, n.attributes)
  }

  /** Every atom listed is the first child of a block two levels below the atoms section. */
  lemma {:induction false} AtomsOfGridsFrom(h: seq<Cell>, grids: seq<nat>, a: Atom)
    requires ValidHeap(h) && forall k :: 0 <= k < |grids| ==> grids[k] < |h|
    requires a in AtomsOfGrids(h, grids)
    ensures exists g, b :: 0 <= g < |grids| && 0 <= b < |h[grids[g]].children| && HoldsAtom(h, h[grids[g]].children[b], a)
  {
    var pre := grids[..|grids| - 1];
    var last := grids[|grids| - 1];
    if a in AtomsOfGrids(h, pre) {
      AtomsOfGridsFrom(h, pre, a);
      var g, b :| 0 <= g < |pre| && 0 <= b < |h[pre[g]].children| && HoldsAtom(h, h[pre[g]].children[b], a);
      assert grids[g] == pre[g];
    } else {
      AtomsOfBlocksFrom(h, h[last].children, a);
      var b :| 0 <= b < |h[last].children| && HoldsAtom(h, h[last].children[b], a);
      assert grids[|grids| - 1] == last;
    }
  }

  lemma {:induction false} AtomsOfBlocksFrom(h: seq<Cell>, blocks: seq<nat>, a: Atom)
    requires ValidHeap(h) && forall k :: 0 <= k < |blocks| ==> blocks[k] < |h|
    requires a in AtomsOfBlocks(h, blocks)
    ensures exists b :: 0 <= b < |blocks| && HoldsAtom(h, blocks[b], a)
  {
    var pre := blocks[..|blocks| - 1];
    if a in AtomsOfBlocks(h, pre) {
      AtomsOfBlocksFrom(h, pre, a);
      var b :| 0 <= b < |pre| && HoldsAtom(h, pre[b], a);
      assert blocks[b] == pre[b];
    }
  }

  /** The number of blocks among `blocks` that have children. */
  function WithChildren(h: seq<Cell>, blocks: seq<nat>): nat
    requires forall k :: 0 <= k < |blocks| ==> blocks[k] < |h|
  {
    if blocks == [] then 0
    else WithChildren(h, blocks[..|blocks| - 1]) + if h[blocks[|blocks| - 1]].children != [] then 1 else 0
  }

  /**
   * Every block with children contributes its first child, in block order:
   * the list has one atom per such block, and the block at `k` holds the
   * atom at the position that counts the blocks with children before it.
   */
  lemma {:induction false} AtomsOfBlocksComplete(h: seq<Cell>, blocks: seq<nat>, k: nat)
    requires ValidHeap(h) && forall j :: 0 <= j < |blocks| ==> blocks[j] < |h|
    requires k < |blocks| && h[blocks[k]].children != []
    ensures |AtomsOfBlocks(h, blocks)| == WithChildren(h, blocks)
    ensures WithChildren(h, blocks[..k]) < |AtomsOfBlocks(h, blocks)|
    ensures HoldsAtom(h, blocks[k], AtomsOfBlocks(h, blocks)[WithChildren(h, blocks[..k])])
    decreases |blocks|
  {
    var pre := blocks[..|blocks| - 1];
    if k == |blocks| - 1 {
      assert blocks[..k] == pre;
      AtomsOfBlocksCount(h, pre);
    } else {
      AtomsOfBlocksComplete(h, pre, k);
      assert pre[..k] == blocks[..k];
    }
  }

  /** The inner loop of `atoms()` lists one atom per block with children. */
  lemma {:induction false} AtomsOfBlocksCount(h: seq<Cell>, blocks: seq<nat>)
    requires ValidHeap(h) && forall j :: 0 <= j < |blocks| ==> blocks[j] < |h|
    ensures |AtomsOfBlocks(h, blocks)| == WithChildren(h, blocks)
  {
    if blocks != [] {
      AtomsOfBlocksCount(h, blocks[..|blocks| - 1]);
    }
  }

  /** The atoms of the first grids are a prefix of the atoms of all of them. */
  lemma {:induction false} AtomsOfGridsPrefix(h: seq<Cell>, grids: seq<nat>, i: nat)
    requires ValidHeap(h) && (forall j :: 0 <= j < |grids| ==> grids[j] < |h|) && i <= |grids|
    ensures AtomsOfGrids(h, grids[..i]) <= AtomsOfGrids(h, grids)
    decreases |grids| - i
  {
    if i < |grids| {
      AtomsOfGridsStep(h, grids, i);
      AtomsOfGridsPrefix(h, grids, i + 1);
      assert grids[..|grids|] == grids;
    } else {
      assert grids[..i] == grids;
    }
  }

  /**
   * The outer loop of `atoms()` (lines 446-452) misses no atom: the first
   * child of every block with children, under every grid, is listed, at the
   * position that counts the atoms of the grids and blocks before it.
   */
  lemma {:induction false} AtomsOfGridsComplete(h: seq<Cell>, grids: seq<nat>, g: nat, b: nat)
    requires ValidHeap(h) && forall j :: 0 <= j < |grids| ==> grids[j] < |h|
    requires g < |grids| && b < |h[grids[g]].children| && h[h[grids[g]].children[b]].children != []
    ensures var bs := h[grids[g]].children;
      var at := |AtomsOfGrids(h, grids[..g])| + WithChildren(h, bs[..b]);
      at < |AtomsOfGrids(h, grids)| && HoldsAtom(h, bs[b], AtomsOfGrids(h, grids)[at])
  {
    var bs := h[grids[g]].children;
    assert forall j :: 0 <= j < |bs| ==> bs[j] < |h| by {
      assert Above(h[grids[g]].children, grids[g], |h|);
    }
    AtomsOfBlocksComplete(h, bs, b);
    AtomsOfGridsStep(h, grids, g);
    AtomsOfGridsPrefix(h, grids, g + 1);
  }

  // ---------------------------------------------------------------------
  // The index
  // ---------------------------------------------------------------------

  /** The meta-information `buildIndex()` returns (lines 197-210). */
  datatype Index = Index(
    name: string,
    timestamp: int,
    version: int,
    preset: map<string, Value>,
    positions: Assoc<Value, string>,
    sections: Assoc<Key, string>,
    particles: Assoc<string, Assoc<string, string>>,
    inherit: Assoc<string, seq<string>>)

  /** `buildIndex()` on an indexed layout. */
  function BuildIndex(name: string, timestamp: int, preset: map<string, Value>, h: seq<Cell>, r: Refs): (idx: Index)
    requires ValidHeap(h) && RefsIn(r, |h|)
    ensures idx.version == Version && idx.name == name && idx.timestamp == timestamp && idx.preset == preset
  {
    Index(name, timestamp, Version, preset, Positions(h, r), SectionTitles(h, r), Particles(h, r), InheritGroups(h, r.inherit))
  }

  /** An index as read back from storage: any top-level key may be missing. */
  datatype StoredIndex = StoredIndex(
    name: Option<string>,
    timestamp: Option<int>,
    version: Option<int>,
    preset: Option<map<string, Value>>,
    positions: Option<Assoc<Value, string>>,
    sections: Option<Assoc<Key, string>>,
    particles: Option<Assoc<string, Assoc<string, string>>>,
    inherit: Option<Assoc<string, seq<string>>>)

  /** The index as stored by `saveIndex`: every key present. */
  function Stored(idx: Index): StoredIndex {
    StoredIndex(Some(idx.name), Some(idx.timestamp), Some(idx.version), Some(idx.preset),
                Some(idx.positions), Some(idx.sections), Some(idx.particles), Some(idx.inherit))
  }

  /**
   * The rebuild test of `loadIndex` (line 797): a stored index is stale when
   * its timestamp is missing or differs from the layout file's, or its
   * version is missing or differs from the current one.
   */
  predicate IsStale(stored: StoredIndex, timestamp: int) {
    stored.timestamp.None? || stored.timestamp.value != timestamp ||
    stored.version.None? || stored.version.value != Version
  }

  /** The preset a loaded index falls back to (lines 809-812). */
  const IndexPresetDefault: map<string, Value> := map["name" := VStr(""), "image" := VStr(DefaultImage)]

  /** The default fill of `loadIndex` (lines 807-817): only missing top-level keys are filled. */
  function WithDefaults(stored: StoredIndex, name: string, timestamp: int): (r: StoredIndex)
    ensures r.name == Some(stored.name.GetOr(name))
    ensures r.timestamp == Some(stored.timestamp.GetOr(timestamp))
    ensures r.preset == Some(stored.preset.GetOr(IndexPresetDefault))
    ensures r.positions == Some(stored.positions.GetOr([]))
    ensures r.sections == Some(stored.sections.GetOr([]))
    ensures r.inherit == Some(stored.inherit.GetOr([]))
    ensures r.version == stored.version && r.particles == stored.particles
  {
    StoredIndex(Some(stored.name.GetOr(name)), Some(stored.timestamp.GetOr(timestamp)), stored.version,
                Some(stored.preset.GetOr(IndexPresetDefault)), Some(stored.positions.GetOr([])),
                Some(stored.sections.GetOr([])), stored.particles, Some(stored.inherit.GetOr([])))
  }

  /**
   * `loadIndex` without its file access: a stale index is replaced by one
   * freshly built for the file's timestamp, and the result is filled with
   * defaults.
   */
  function LoadIndex(stored: StoredIndex, name: string, timestamp: int, rebuilt: Index): StoredIndex {
    WithDefaults(if IsStale(stored, timestamp) then Stored(rebuilt) else stored, name, timestamp)
  }

  /**
   * What `loadIndex` returns is never stale, provided the rebuilt index was
   * built by `buildIndex` for the file's timestamp; a fresh stored index is
   * returned as it was, up to the default fill.
   */
  lemma {:induction false} LoadedIndexFresh(stored: StoredIndex, name: string, timestamp: int, rebuilt: Index)
    requires rebuilt.timestamp == timestamp && rebuilt.version == Version
    ensures !IsStale(LoadIndex(stored, name, timestamp, rebuilt), timestamp)
    ensures !IsStale(stored, timestamp) ==> LoadIndex(stored, name, timestamp, rebuilt) == WithDefaults(stored, name, timestamp)
  {
  }

  /** Filling defaults twice is filling them once, and a complete stored index is left alone. */
  lemma {:induction false} DefaultsIdempotent(stored: StoredIndex, name: string, timestamp: int, idx: Index)
    ensures WithDefaults(WithDefaults(stored, name, timestamp), name, timestamp) == WithDefaults(stored, name, timestamp)
    ensures WithDefaults(Stored(idx), name, timestamp) == Stored(idx)
  {
  }

  // ---------------------------------------------------------------------
  // The constructor's preset
  // ---------------------------------------------------------------------

  /** The defaults the constructor adds to the preset (lines 162-166). */
  const PresetDefault: map<string, Value> := map["name" := VStr(""), "timestamp" := VNum(0.0), "image" := VStr(DefaultImage)]

  /**
   * The preset a new layout keeps (lines 152-166): the one given when it is
   * not empty, else the document's `preset` entry if it is set, else none;
   * then every default key it lacks is added.
   */
  function ChoosePreset(given: Option<map<string, Value>>, document: Option<map<string, Value>>): (p: map<string, Value>)
    ensures p.Keys == PresetDefault.Keys + (if given.Some? && given.value != map[] then given.value.Keys
                                            else if document.Some? then document.value.Keys else {})
    ensures given.Some? && given.value != map[] ==> forall k :: k in given.value ==> p[k] == given.value[k]
    ensures (given.None? || given.value == map[]) && document.Some? ==> forall k :: k in document.value ==> p[k] == document.value[k]
    ensures forall k :: (k in PresetDefault && k !in (if given.Some? && given.value != map[] then given.value
                                                     else document.GetOr(map[]))) ==> p[k] == PresetDefault[k]
  {
    var chosen := if given.Some? && given.value != map[] then given.value
                  else if document.Some? then document.value else map[];
    Union(chosen, PresetDefault)
  }
}
