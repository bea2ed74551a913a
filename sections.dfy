/**
 * The section reconciler (`copySections` / `copyData`): the content of an old
 * layout is moved into the sections, off-canvas sections and atoms of the
 * current one, matched by subtype and id; old content with no place to go is
 * reported as leftover, id to title.
 */
module Sections {
  import opened Php
  import opened Heap
  import opened Indexer

  /** The categories reconciled, in order (lines 516-541). */
  const Categories: seq<string> := ["section", "offcanvas", "atoms"]

  /** The leftover list: old id to old title. */
  type Leftover = Assoc<string, string>

  /** Handles of every bucket of a subtype index are below `n` after the heap grows. */
  lemma {:induction false} TypesInGrow(s: SubtypeIndex, n: nat, m: nat)
    requires TypesIn(s, n) && n <= m
    ensures TypesIn(s, m)
  {
    forall j | 0 <= j < |s| ensures BucketIn(s[j].1, m) {
      assert BucketIn(s[j].1, n);
    }
  }

  /** The current bucket of a subtype, empty when there is none. */
  function SectionBucket(sections: SubtypeIndex, subtype: string, n: nat): (b: Bucket)
    requires TypesIn(sections, n)
    ensures BucketIn(b, n)
  {
    match Lookup(sections, subtype)
    case None => []
    case Some(b) =>
      var i :| 0 <= i < |sections| && sections[i] == (subtype, b);
      assert BucketIn(sections[i].1, n);
      b
  }

  /**
   * The inner loop of lines 551-557: the first node of the bucket whose id is
   * identical to `id` (an absent id matches only an absent id).
   */
  function FirstMatch(h: seq<Cell>, bucket: Bucket, id: Option<string>): (m: Option<nat>)
    requires BucketIn(bucket, |h|)
    ensures m.Some? ==> exists k :: 0 <= k < |bucket| && bucket[k].1 == m.value && h[m.value].node.id == id &&
                                    forall j :: 0 <= j < k ==> h[bucket[j].1].node.id != id
    ensures m.None? ==> forall k :: 0 <= k < |bucket| ==> h[bucket[k].1].node.id != id
  {
    if bucket == [] then None
    else if h[bucket[0].1].node.id == id then
      Some(bucket[0].1)
    else
      var rest := bucket[1..];
      var m := FirstMatch(h, rest, id);
      if m.Some? then
        var k :| 0 <= k < |rest| && rest[k].1 == m.value && h[m.value].node.id == id &&
                 forall j :: 0 <= j < k ==> h[rest[j].1].node.id != id;
        assert bucket[k + 1].1 == m.value;
        assert forall j :: 0 <= j < k + 1 ==> h[bucket[j].1].node.id != id by {
          forall j | 0 <= j < k + 1 ensures h[bucket[j].1].node.id != id {
            if j > 0 { assert bucket[j] == rest[j - 1]; }
          }
        }
        m
      else
        assert forall k :: 1 <= k < |bucket| ==> bucket[k] == rest[k - 1];
        m
  }

  /**
   * One old item (lines 549-562): a matching current node takes a copy of the
   * old item's children; otherwise an old item with children is recorded as
   * leftover.
   */
  function CopyItem(h: seq<Cell>, sections: SubtypeIndex, subtype: string, oh: seq<Cell>, item: nat, leftover: Leftover)
    : (res: (seq<Cell>, Leftover))
    requires ValidHeap(h) && TypesIn(sections, |h|) && ValidHeap(oh) && item < |oh|
    ensures ValidHeap(res.0) && |res.0| >= |h|
  {
    var o := oh[item];
    match FirstMatch(h, SectionBucket(sections, subtype, |h|), o.node.id)
    case Some(s) => (Graft(h, s, UnfoldAll(oh, o.children)).0, leftover)
    case None =>
      (h, if o.children != [] then Put(leftover, IdKey(o.node.id), o.node.title) else leftover)
  }

  /** The (subtype, old item) pairs of one subtype bucket of the old layout, in order. */
  function BucketJobs(subtype: string, bucket: Bucket): (jobs: seq<(string, nat)>)
    ensures |jobs| == |bucket| && forall k :: 0 <= k < |bucket| ==> jobs[k] == (subtype, bucket[k].1)
  {
    seq(|bucket|, k requires 0 <= k < |bucket| => (subtype, bucket[k].1))
  }

  /** The (subtype, old item) pairs of the two outer loops of `copyData` (lines 548-549), in order. */
  function CopyJobs(data: SubtypeIndex): (jobs: seq<(string, nat)>)
  {
    if data == [] then []
    else
      var last := data[|data| - 1];
      CopyJobs(data[..|data| - 1]) + BucketJobs(last.0, last.1)
  }

  /** The jobs of one more subtype follow those of the subtypes before it. */
  lemma {:induction false} CopyJobsSnoc(data: SubtypeIndex, i: nat)
    requires i < |data|
    ensures CopyJobs(data[..i + 1]) == CopyJobs(data[..i]) + BucketJobs(data[i].0, data[i].1)
  {
    assert data[..i + 1][..i] == data[..i];
  }

  /** Every old item of every subtype bucket is a job, and nothing else is. */
  lemma {:induction false} CopyJobsMembers(data: SubtypeIndex, subtype: string, item: nat)
    ensures (subtype, item) in CopyJobs(data) <==>
      exists i, k :: 0 <= i < |data| && 0 <= k < |data[i].1| && data[i].0 == subtype && data[i].1[k].1 == item
  {
    if data != [] {
      var pre := data[..|data| - 1];
      var last := data[|data| - 1];
      var tail := BucketJobs(last.0, last.1);
      CopyJobsMembers(pre, subtype, item);
      if (subtype, item) in tail {
        var k :| 0 <= k < |tail| && tail[k] == (subtype, item);
        assert data[|data| - 1].1[k].1 == item;
      }
      if exists i, k :: 0 <= i < |data| && 0 <= k < |data[i].1| && data[i].0 == subtype && data[i].1[k].1 == item {
        var i, k :| 0 <= i < |data| && 0 <= k < |data[i].1| && data[i].0 == subtype && data[i].1[k].1 == item;
        if i < |data| - 1 {
          assert pre[i] == data[i];
        } else {
          assert tail[k] == (subtype, item);
        }
      }
      if exists i, k :: 0 <= i < |pre| && 0 <= k < |pre[i].1| && pre[i].0 == subtype && pre[i].1[k].1 == item {
        var i, k :| 0 <= i < |pre| && 0 <= k < |pre[i].1| && pre[i].0 == subtype && pre[i].1[k].1 == item;
        assert data[i] == pre[i];
      }
    }
  }

  predicate JobsIn(jobs: seq<(string, nat)>, n: nat) {
    forall k :: 0 <= k < |jobs| ==> jobs[k].1 < n
  }

  lemma {:induction false} CopyJobsIn(data: SubtypeIndex, n: nat)
    requires TypesIn(data, n)
    ensures JobsIn(CopyJobs(data), n)
  {
    var jobs := CopyJobs(data);
    forall k | 0 <= k < |jobs| ensures jobs[k].1 < n {
      assert jobs[k] in jobs;
      CopyJobsMembers(data, jobs[k].0, jobs[k].1);
      var i, j :| 0 <= i < |data| && 0 <= j < |data[i].1| && data[i].0 == jobs[k].0 && data[i].1[j].1 == jobs[k].1;
      assert BucketIn(data[i].1, n);
    }
  }

  /** `copyData()` as a fold of `CopyItem` over its jobs. */
  function CopyData(h: seq<Cell>, sections: SubtypeIndex, oh: seq<Cell>, jobs: seq<(string, nat)>, leftover: Leftover)
    : (res: (seq<Cell>, Leftover))
    requires ValidHeap(h) && TypesIn(sections, |h|) && ValidHeap(oh) && JobsIn(jobs, |oh|)
    ensures ValidHeap(res.0) && |res.0| >= |h|
  {
    if jobs == [] then (h, leftover)
    else
      var (h1, l1) := CopyData(h, sections, oh, jobs[..|jobs| - 1], leftover);
      TypesInGrow(sections, |h|, |h1|);
      CopyItem(h1, sections, jobs[|jobs| - 1].0, oh, jobs[|jobs| - 1].1, l1)
  }

  /** Folding over two runs of jobs is folding over the second from where the first left off. */
  lemma {:induction false} CopyDataAppend(h: seq<Cell>, sections: SubtypeIndex, oh: seq<Cell>,
                                          a: seq<(string, nat)>, b: seq<(string, nat)>, leftover: Leftover)
    requires ValidHeap(h) && TypesIn(sections, |h|) && ValidHeap(oh) && JobsIn(a, |oh|) && JobsIn(b, |oh|)
    ensures JobsIn(a + b, |oh|)
    ensures var (h1, l1) := CopyData(h, sections, oh, a, leftover);
      TypesIn(sections, |h1|) && CopyData(h, sections, oh, a + b, leftover) == CopyData(h1, sections, oh, b, l1)
    decreases |b|
  {
    var (h1, l1) := CopyData(h, sections, oh, a, leftover);
    TypesInGrow(sections, |h|, |h1|);
    if b == [] {
      assert a + b == a;
    } else {
      var pre := b[..|b| - 1];
      CopyDataAppend(h, sections, oh, a, pre, leftover);
      assert (a + b)[..|a + b| - 1] == a + pre;
    }
  }

  /** One more subtype of the outer loop of `copyData`. */
  lemma {:induction false} CopySubtypeStep(h: seq<Cell>, sections: SubtypeIndex, oh: seq<Cell>, data: SubtypeIndex, i: nat,
                        leftover: Leftover, hA: seq<Cell>, lA: Leftover)
    requires ValidHeap(h) && TypesIn(sections, |h|) && ValidHeap(oh) && TypesIn(data, |oh|) && i < |data|
    requires JobsIn(CopyJobs(data[..i]), |oh|)
    requires (hA, lA) == CopyData(h, sections, oh, CopyJobs(data[..i]), leftover)
    ensures ValidHeap(hA) && TypesIn(sections, |hA|) && BucketIn(data[i].1, |oh|)
    ensures JobsIn(CopyJobs(data[..i + 1]), |oh|)
    ensures CopyData(h, sections, oh, CopyJobs(data[..i + 1]), leftover) ==
      CopyData(hA, sections, oh, BucketJobs(data[i].0, data[i].1), lA)
  {
    assert BucketIn(data[i].1, |oh|);
    CopyJobsSnoc(data, i);
    CopyDataAppend(h, sections, oh, CopyJobs(data[..i]), BucketJobs(data[i].0, data[i].1), leftover);
  }

  /** One more old item of the middle loop of `copyData`. */
  lemma {:induction false} CopyItemStep(h: seq<Cell>, sections: SubtypeIndex, oh: seq<Cell>, subtype: string, bucket: Bucket, k: nat,
                     leftover: Leftover, hA: seq<Cell>, lA: Leftover)
    requires ValidHeap(h) && TypesIn(sections, |h|) && ValidHeap(oh) && BucketIn(bucket, |oh|) && k < |bucket|
    requires (hA, lA) == CopyData(h, sections, oh, BucketJobs(subtype, bucket[..k]), leftover)
    requires ValidHeap(hA) && TypesIn(sections, |hA|) && bucket[k].1 < |oh|
    ensures CopyData(h, sections, oh, BucketJobs(subtype, bucket[..k + 1]), leftover) ==
      CopyItem(hA, sections, subtype, oh, bucket[k].1, lA)
  {
    BucketJobsPrefix(subtype, bucket, k);
  }

  lemma {:induction false} BucketJobsPrefix(subtype: string, bucket: Bucket, k: nat)
    requires k < |bucket|
    ensures var jobs := BucketJobs(subtype, bucket[..k + 1]);
      |jobs| == k + 1 && jobs[..k] == BucketJobs(subtype, bucket[..k]) && jobs[k] == (subtype, bucket[k].1)
  {
  }

  /** The search of lines 553-558 stops at the first node whose id is identical. */
  lemma {:induction false} FirstMatchAt(h: seq<Cell>, bucket: Bucket, id: Option<string>, k: nat)
    requires BucketIn(bucket, |h|) && k < |bucket| && h[bucket[k].1].node.id == id
    requires forall j :: 0 <= j < k ==> h[bucket[j].1].node.id != id
    ensures FirstMatch(h, bucket, id) == Some(bucket[k].1)
  {
    var m := FirstMatch(h, bucket, id);
    if m.Some? {
      var k' :| 0 <= k' < |bucket| && bucket[k'].1 == m.value && h[m.value].node.id == id &&
                forall j :: 0 <= j < k' ==> h[bucket[j].1].node.id != id;
      assert k' == k;
    }
  }

  /** One more category of `copySections`. */
  lemma {:induction false} CategoryStep(h: seq<Cell>, r: Refs, oh: seq<Cell>, or: Refs, categories: seq<string>, c: nat,
                     hA: seq<Cell>, lA: Leftover)
    requires ValidHeap(h) && RefsIn(r, |h|) && ValidHeap(oh) && RefsIn(or, |oh|) && c < |categories|
    requires (hA, lA) == CopySections(h, r, oh, or, categories[..c])
    ensures ValidHeap(hA) && RefsIn(r, |hA|)
    ensures CopySections(h, r, oh, or, categories[..c + 1]) == CopyCategory(hA, r, oh, or, categories[c], lA)
  {
    assert categories[..c + 1][..c] == categories[..c];
    RefsInGrow(r, |h|, |hA|);
  }

  /** One category of `copySections` (e.g. lines 517-523): skipped when the current layout has no node of it. */
  function CopyCategory(h: seq<Cell>, r: Refs, oh: seq<Cell>, or: Refs, category: string, leftover: Leftover)
    : (res: (seq<Cell>, Leftover))
    requires ValidHeap(h) && RefsIn(r, |h|) && ValidHeap(oh) && RefsIn(or, |oh|)
    ensures ValidHeap(res.0) && |res.0| >= |h|
  {
    if category in r.types then
      var data := SubtypesOf(or.types, category);
      assert TypesIn(data, |oh|);
      CopyJobsIn(data, |oh|);
      assert TypesIn(r.types[category], |h|);
      CopyData(h, r.types[category], oh, CopyJobs(data), leftover)
    else (h, leftover)
  }

  /** `copySections()` on the indexed current and old layouts: the new heap and the leftover. */
  function CopySections(h: seq<Cell>, r: Refs, oh: seq<Cell>, or: Refs, categories: seq<string>): (res: (seq<Cell>, Leftover))
    requires ValidHeap(h) && RefsIn(r, |h|) && ValidHeap(oh) && RefsIn(or, |oh|)
    ensures ValidHeap(res.0) && |res.0| >= |h|
  {
    if categories == [] then (h, [])
    else
      var (h1, l1) := CopySections(h, r, oh, or, categories[..|categories| - 1]);
      RefsInGrow(r, |h|, |h1|);
      CopyCategory(h1, r, oh, or, categories[|categories| - 1], l1)
  }

  // ---------------------------------------------------------------------
  // Properties
  // ---------------------------------------------------------------------

  /**
   * A matched old item (line 555): the current node's children become a copy
   * of the old item's children — empty ones included — and no other node
   * that existed before changes; nothing is reported.
   */
  lemma {:induction false} CopyMatched(h: seq<Cell>, sections: SubtypeIndex, subtype: string, oh: seq<Cell>, item: nat, leftover: Leftover)
    requires ValidHeap(h) && TypesIn(sections, |h|) && ValidHeap(oh) && item < |oh|
    requires FirstMatch(h, SectionBucket(sections, subtype, |h|), oh[item].node.id).Some?
    ensures var s := FirstMatch(h, SectionBucket(sections, subtype, |h|), oh[item].node.id).value;
      var res := CopyItem(h, sections, subtype, oh, item, leftover);
      s < |h| && res.1 == leftover && h[s].node.id == oh[item].node.id &&
      Above(res.0[s].children, -1, |res.0|) &&
      UnfoldAll(res.0, res.0[s].children) == UnfoldAll(oh, oh[item].children) &&
      res.0[..|h|] == h[s := h[s].(children := res.0[s].children)]
  {
    var s := FirstMatch(h, SectionBucket(sections, subtype, |h|), oh[item].node.id).value;
    GraftRoundTrip(h, s, UnfoldAll(oh, oh[item].children));
  }

  /**
   * An unmatched old item (lines 560-562): no node changes; the leftover
   * gains the old id with the old title exactly when the old item has
   * children, and keeps every other entry.
   */
  lemma {:induction false} CopyUnmatched(h: seq<Cell>, sections: SubtypeIndex, subtype: string, oh: seq<Cell>, item: nat, leftover: Leftover)
    requires ValidHeap(h) && TypesIn(sections, |h|) && ValidHeap(oh) && item < |oh|
    requires FirstMatch(h, SectionBucket(sections, subtype, |h|), oh[item].node.id).None?
    ensures var res := CopyItem(h, sections, subtype, oh, item, leftover);
      var key := IdKey(oh[item].node.id);
      res.0 == h &&
      (oh[item].children != [] ==> Lookup(res.1, key) == Some(oh[item].node.title)) &&
      (oh[item].children == [] ==> res.1 == leftover) &&
      forall k :: k != key ==> Lookup(res.1, k) == Lookup(leftover, k)
  {
  }

  /**
   * An old item whose subtype has no bucket among the current sections
   * (line 552) finds no match, whatever its id.
   */
  lemma {:induction false} NoBucketNoMatch(h: seq<Cell>, sections: SubtypeIndex, subtype: string, id: Option<string>)
    requires TypesIn(sections, |h|) && !HasKey(sections, subtype)
    ensures FirstMatch(h, SectionBucket(sections, subtype, |h|), id).None?
  {
  }

  /** A category the current layout has no node of is skipped and reports nothing (lines 519, 527, 535). */
  lemma {:induction false} CategorySkipped(h: seq<Cell>, r: Refs, oh: seq<Cell>, or: Refs, category: string, leftover: Leftover)
    requires ValidHeap(h) && RefsIn(r, |h|) && ValidHeap(oh) && RefsIn(or, |oh|)
    requires category !in r.types
    ensures CopyCategory(h, r, oh, or, category, leftover) == (h, leftover)
  {
  }

  /** Old content never shrinks the current heap, and the reconciler only adds leftover entries. */
  lemma {:induction false} CopyDataKeepsLeftover(h: seq<Cell>, sections: SubtypeIndex, oh: seq<Cell>, jobs: seq<(string, nat)>, leftover: Leftover, key: string)
    requires ValidHeap(h) && TypesIn(sections, |h|) && ValidHeap(oh) && JobsIn(jobs, |oh|)
    requires HasKey(leftover, key)
    ensures HasKey(CopyData(h, sections, oh, jobs, leftover).1, key)
  {
    if jobs != [] {
      var (h1, l1) := CopyData(h, sections, oh, jobs[..|jobs| - 1], leftover);
      CopyDataKeepsLeftover(h, sections, oh, jobs[..|jobs| - 1], leftover, key);
      TypesInGrow(sections, |h|, |h1|);
      var (subtype, item) := jobs[|jobs| - 1];
      var l2 := CopyItem(h1, sections, subtype, oh, item, l1).1;
      if l2 != l1 {
        var k2 := IdKey(oh[item].node.id);
        if key != k2 {
          assert Lookup(l2, key) == Lookup(l1, key);
        }
      }
    }
  }
}
