/**
 * The width balancer (`calcWidths`): a post-order pass that gives every
 * `block` child without a size a default share, then rescales the sizes of
 * the non-fixed `block` children so that, with the fixed ones, they fill
 * 100%, rounding each to an integer and carrying the rounding error on to
 * the next sibling.
 */
module Widths {
  import opened Php
  import opened Heap

  /** The size attribute of a node as PHP arithmetic reads it (absent is 0). */
  function Size(n: Node): real {
    if "size" in n.attributes then NumOf(n.attributes["size"]) else 0.0
  }

  /** Whether a node's `fixed` attribute is set and not empty. */
  predicate Fixed(n: Node) {
    "fixed" in n.attributes && !EmptyValue(n.attributes["fixed"])
  }

  predicate IsBlock(n: Node) {
    n.kind == "block"
  }

  /** A block whose size the rescaling rewrites. */
  predicate Dynamic(n: Node) {
    IsBlock(n) && !Fixed(n)
  }

  /** The node with its size attribute set to `s`. */
  function WithSize(n: Node, s: real): (r: Node)
    ensures Size(r) == s && r.kind == n.kind && r.subtype == n.subtype && r.id == n.id
    ensures Fixed(r) == Fixed(n)
    ensures r.attributes - {"size"} == n.attributes - {"size"}
  {
    n.(attributes := n.attributes["size" := VNum(s)])
  }

  /** The canonical-split table (line 46): child count to the per-child share that is already acceptable. */
  function Equalized(count: nat): real {
    if count == 3 then 33.3
    else if count == 6 then 16.7
    else if count == 7 then 14.3
    else if count == 8 then 12.5
    else if count == 9 then 11.1
    else if count == 11 then 9.1
    else if count == 12 then 8.3
    else 0.0
  }

  /**
   * The table value for `count` times `count`: the dynamic sum that the canonical split
   * for `count` blocks adds up to (0 for counts not in the table).
   */
  function CanonicalSum(count: nat): real {
    if count == 3 then 99.9
    else if count == 6 then 100.2
    else if count == 7 then 100.1
    else if count == 8 then 100.0
    else if count == 9 then 99.9
    else if count == 11 then 100.1
    else if count == 12 then 99.6
    else 0.0
  }

  lemma {:induction false} CanonicalSumIsProduct(count: nat)
    ensures CanonicalSum(count) == Equalized(count) * count as real
  {
  }

  /** The three accumulators of the first loop (lines 677-693). */
  datatype Tally = Tally(dynamic: real, fixed: real, count: nat)

  /** Sum of the sizes of the dynamic blocks among `cs`. */
  function DynamicSum(h: seq<Cell>, cs: seq<nat>): real
    requires Above(cs, -1, |h|)
  {
    if cs == [] then 0.0
    else
      var n := h[cs[|cs| - 1]].node;
      DynamicSum(h, cs[..|cs| - 1]) + (if Dynamic(n) then Size(n) else 0.0)
  }

  /** Sum of the sizes of the fixed blocks among `cs`. */
  function FixedSum(h: seq<Cell>, cs: seq<nat>): real
    requires Above(cs, -1, |h|)
  {
    if cs == [] then 0.0
    else
      var n := h[cs[|cs| - 1]].node;
      FixedSum(h, cs[..|cs| - 1]) + (if IsBlock(n) && Fixed(n) then Size(n) else 0.0)
  }

  /** Number of blocks among `cs`. */
  function BlockCount(h: seq<Cell>, cs: seq<nat>): nat
    requires Above(cs, -1, |h|)
  {
    if cs == [] then 0
    else BlockCount(h, cs[..|cs| - 1]) + (if IsBlock(h[cs[|cs| - 1]].node) then 1 else 0)
  }

  /** A node after the default-size fill of line 685-687, for a parent with `total` children. */
  function Filled(n: Node, total: nat): Node
    requires total > 0
  {
    if IsBlock(n) && !IsSet(n.attributes, "size") then WithSize(n, 100.0 / total as real) else n
  }

  /**
   * The first loop over the children `cs` of a node with `total` children
   * (lines 677-693): fills default sizes and tallies the block sizes.
   */
  function Prepare(h: seq<Cell>, cs: seq<nat>, total: nat): (res: (seq<Cell>, Tally))
    requires Above(cs, -1, |h|) && total > 0
    ensures SameShape(res.0, h)
  {
    if cs == [] then (h, Tally(0.0, 0.0, 0))
    else
      var (h1, t) := Prepare(h, cs[..|cs| - 1], total);
      PrepareOne(h1, cs[|cs| - 1], total, t)
  }

  /** The first loop's body (lines 678-692) for the child at `c`. */
  function PrepareOne(h: seq<Cell>, c: nat, total: nat, t: Tally): (res: (seq<Cell>, Tally))
    requires c < |h| && total > 0
    ensures SameShape(res.0, h)
  {
    if !IsBlock(h[c].node) then (h, t)
    else
      var n := Filled(h[c].node, total);
      var h2 := h[c := h[c].(node := n)];
      if Fixed(n) then (h2, Tally(t.dynamic, t.fixed + Size(n), t.count + 1))
      else (h2, Tally(t.dynamic + Size(n), t.fixed, t.count + 1))
  }

  /** The test of lines 695-703: whether the sizes are rewritten at all. */
  predicate ShouldRescale(t: Tally) {
    t.count != 0 && Round1(t.dynamic) != 100.0 && Round1(t.dynamic) != CanonicalSum(t.count)
  }

  /** The multiplier of line 704: the room the fixed blocks leave, over the dynamic sum (or over 1 when that is 0). */
  function Multiplier(t: Tally): real {
    (100.0 - t.fixed) / (if t.dynamic == 0.0 then 1.0 else t.dynamic)
  }

  /**
   * Multiplying an old size by the multiplier `m`. The second loop is stated
   * for any such scaling of the old sizes, so that its carry invariant is
   * proved once, away from the product.
   */
  function Scaling(m: real): real -> real {
    size => size * m
  }

  /**
   * The second loop (lines 704-721): each dynamic block among `cs` gets its
   * scaled size plus the carried fraction, rounded; returns the new heap and
   * the final carry.
   */
  function Rescale(h: seq<Cell>, cs: seq<nat>, scale: real -> real): (res: (seq<Cell>, real))
    requires Above(cs, -1, |h|)
    ensures SameShape(res.0, h)
  {
    if cs == [] then (h, 0.0)
    else
      var (h1, carry) := Rescale(h, cs[..|cs| - 1], scale);
      RescaleAt(h1, cs[|cs| - 1], scale, carry)
  }

  /** The second loop's body (lines 705-720) for the child at `c`: only a dynamic block changes. */
  function RescaleAt(h: seq<Cell>, c: nat, scale: real -> real, carry: real): (res: (seq<Cell>, real))
    requires c < |h|
    ensures SameShape(res.0, h)
  {
    var n := h[c].node;
    if !Dynamic(n) then (h, carry)
    else
      var (n', carry') := RescaleOne(n, scale(Size(n)) + carry);
      (h[c := h[c].(node := n')], carry')
  }

  /** Lines 717-720 for one dynamic block whose scaled size plus carry is `size`: the new node and the new carry. */
  function RescaleOne(n: Node, size: real): (res: (Node, real))
    ensures Size(res.0) + res.1 == size
    ensures Integral(Size(res.0)) && -1.0 / 2.0 <= res.1 <= 1.0 / 2.0
    ensures Dynamic(res.0) == Dynamic(n) && res.0.attributes - {"size"} == n.attributes - {"size"}
    ensures res.0.kind == n.kind && res.0.subtype == n.subtype && res.0.id == n.id
  {
    var rounded := Round(size);
    (WithSize(n, rounded as real), size - rounded as real)
  }

  /** What the body of `calcWidths` does for one node `x` with children, after its subtrees. */
  function Balance(h: seq<Cell>, x: nat): (h': seq<Cell>)
    requires ValidHeap(h) && x < |h| && h[x].children != []
    ensures SameShape(h', h)
  {
    var cs := h[x].children;
    RescaleIf(Prepare(h, cs, |cs|), cs)
  }

  /** Lines 695-722 after the first loop: the second loop runs only when the tally asks for it. */
  function RescaleIf(p: (seq<Cell>, Tally), cs: seq<nat>): (h': seq<Cell>)
    requires Above(cs, -1, |p.0|)
    ensures SameShape(h', p.0)
  {
    if ShouldRescale(p.1) then Rescale(p.0, cs, Scaling(Multiplier(p.1))).0 else p.0
  }

  /** `calcWidths()`: every node with children is balanced after its own subtree. */
  function Balanced(h: seq<Cell>, items: seq<nat>, lo: int): (h': seq<Cell>)
    requires ValidHeap(h) && Above(items, lo, |h|)
    ensures SameShape(h', h) && ValidHeap(h')
    decreases |h| - lo, |items|
  {
    if items == [] then h
    else
      var h1 := Balanced(h, items[..|items| - 1], lo);
      var x := items[|items| - 1];
      if h1[x].children == [] then h1
      else
        var h2 := Balanced(h1, h1[x].children, x);
        SameChildrenValid(h2, h);
        var h3 := Balance(h2, x);
        SameChildrenValid(h3, h);
        h3
  }

  /** One more child of the first loop. */
  lemma {:induction false} PrepareStep(h: seq<Cell>, cs: seq<nat>, k: nat, total: nat, hA: seq<Cell>, t: Tally)
    requires Above(cs, -1, |h|) && total > 0 && k < |cs|
    requires (hA, t) == Prepare(h, cs[..k], total)
    ensures Above(cs[..k + 1], -1, |h|) && |hA| == |h|
    ensures Prepare(h, cs[..k + 1], total) == PrepareOne(hA, cs[k], total, t)
  {
    assert cs[..k + 1][..k] == cs[..k];
  }

  /** One more child of the second loop. */
  lemma {:induction false} RescaleStep(h: seq<Cell>, cs: seq<nat>, k: nat, scale: real -> real, hA: seq<Cell>, carry: real)
    requires Above(cs, -1, |h|) && k < |cs|
    requires (hA, carry) == Rescale(h, cs[..k], scale)
    ensures Above(cs[..k + 1], -1, |h|) && |hA| == |h|
    ensures Rescale(h, cs[..k + 1], scale) == RescaleAt(hA, cs[k], scale, carry)
  {
    assert cs[..k + 1][..k] == cs[..k];
  }

  /** One more item of `calcWidths`: its subtree first, then the node itself. */
  lemma {:induction false} WidthsStep(h: seq<Cell>, items: seq<nat>, i: nat, lo: int, hA: seq<Cell>)
    requires ValidHeap(h) && Above(items, lo, |h|) && i < |items|
    requires hA == Balanced(h, items[..i], lo)
    requires ValidHeap(hA) && SameShape(hA, h)
    ensures var x := items[i];
      Balanced(h, items[..i + 1], lo) ==
        if hA[x].children == [] then hA else Balance(Balanced(hA, hA[x].children, x), x)
  {
    assert items[..i + 1][..i] == items[..i];
  }

  // ---------------------------------------------------------------------
  // Frames
  // ---------------------------------------------------------------------

  /** Sums over `cs` only read the cells at `cs`. */
  lemma {:induction false} SumsFrame(a: seq<Cell>, b: seq<Cell>, cs: seq<nat>)
    requires Above(cs, -1, |a|) && |a| == |b|
    requires forall k :: 0 <= k < |cs| ==> a[cs[k]] == b[cs[k]]
    ensures DynamicSum(a, cs) == DynamicSum(b, cs)
    ensures FixedSum(a, cs) == FixedSum(b, cs)
    ensures BlockCount(a, cs) == BlockCount(b, cs)
  {
    if cs != [] {
      SumsFrame(a, b, cs[..|cs| - 1]);
    }
  }

  /** The first loop writes only the cells of `cs`, and each one as `Filled`. */
  lemma {:induction false} PrepareCells(h: seq<Cell>, cs: seq<nat>, total: nat)
    requires Above(cs, -1, |h|) && Increasing(cs) && total > 0
    ensures forall i :: 0 <= i < |h| && i !in cs ==> Prepare(h, cs, total).0[i] == h[i]
    ensures forall k :: 0 <= k < |cs| ==> Prepare(h, cs, total).0[cs[k]].node == Filled(h[cs[k]].node, total)
  {
    if cs != [] {
      var pre := cs[..|cs| - 1];
      var c := cs[|cs| - 1];
      PrepareCells(h, pre, total);
      var h1 := Prepare(h, pre, total).0;
      assert c !in pre;
      assert h1[c] == h[c];
      forall i | 0 <= i < |h| && i !in cs ensures Prepare(h, cs, total).0[i] == h[i] {
        assert i !in pre;
      }
      forall k | 0 <= k < |cs| ensures Prepare(h, cs, total).0[cs[k]].node == Filled(h[cs[k]].node, total) {
        if k < |cs| - 1 {
          assert cs[k] == pre[k];
        }
      }
    }
  }

  /**
   * The tally of the first loop is the block count and the dynamic and fixed
   * sums over the filled children.
   */
  lemma {:induction false} PrepareTally(h: seq<Cell>, cs: seq<nat>, total: nat)
    requires Above(cs, -1, |h|) && Increasing(cs) && total > 0
    ensures var (h1, t) := Prepare(h, cs, total);
      t == Tally(DynamicSum(h1, cs), FixedSum(h1, cs), BlockCount(h1, cs))
  {
    if cs != [] {
      var pre := cs[..|cs| - 1];
      var c := cs[|cs| - 1];
      PrepareTally(h, pre, total);
      var h1 := Prepare(h, pre, total).0;
      var h2 := Prepare(h, cs, total).0;
      assert forall k :: 0 <= k < |pre| ==> pre[k] != c;
      assert forall k :: 0 <= k < |pre| ==> h1[pre[k]] == h2[pre[k]];
      SumsFrame(h1, h2, pre);
    }
  }

  /** The second loop writes only dynamic blocks among `cs`. */
  lemma {:induction false} RescaleCells(h: seq<Cell>, cs: seq<nat>, scale: real -> real)
    requires Above(cs, -1, |h|) && Increasing(cs)
    ensures forall i :: 0 <= i < |h| && (i !in cs || !Dynamic(h[i].node)) ==> Rescale(h, cs, scale).0[i] == h[i]
    ensures forall k :: 0 <= k < |cs| && Dynamic(h[cs[k]].node) ==>
      var n := Rescale(h, cs, scale).0[cs[k]].node;
      Dynamic(n) && Integral(Size(n)) && n.attributes - {"size"} == h[cs[k]].node.attributes - {"size"}
  {
    if cs != [] {
      var pre := cs[..|cs| - 1];
      var c := cs[|cs| - 1];
      RescaleCells(h, pre, scale);
      var h1 := Rescale(h, pre, scale).0;
      assert c !in pre;
      assert h1[c] == h[c];
      var h2 := Rescale(h, cs, scale).0;
      forall i | 0 <= i < |h| && (i !in cs || !Dynamic(h[i].node)) ensures h2[i] == h[i] {
        assert i !in pre || !Dynamic(h[i].node);
      }
      forall k | 0 <= k < |cs| && Dynamic(h[cs[k]].node)
        ensures Dynamic(h2[cs[k]].node) && Integral(Size(h2[cs[k]].node)) &&
                h2[cs[k]].node.attributes - {"size"} == h[cs[k]].node.attributes - {"size"}
      {
        if k < |cs| - 1 {
          assert cs[k] == pre[k];
          assert cs[k] != c;
        }
      }
    }
  }

  // ---------------------------------------------------------------------
  // The carry invariant
  // ---------------------------------------------------------------------

  /** Sum of the scaled sizes of the dynamic blocks among `cs`. */
  function ScaledSum(h: seq<Cell>, cs: seq<nat>, scale: real -> real): real
    requires Above(cs, -1, |h|)
  {
    if cs == [] then 0.0
    else
      var n := h[cs[|cs| - 1]].node;
      ScaledSum(h, cs[..|cs| - 1], scale) + (if Dynamic(n) then scale(Size(n)) else 0.0)
  }

  /** Scaling every size by `m` scales their sum by `m`. */
  lemma {:induction false} ScaledSumIsProduct(h: seq<Cell>, cs: seq<nat>, m: real)
    requires Above(cs, -1, |h|)
    ensures ScaledSum(h, cs, Scaling(m)) == m * DynamicSum(h, cs)
  {
    if cs != [] {
      var n := h[cs[|cs| - 1]].node;
      ScaledSumIsProduct(h, cs[..|cs| - 1], m);
      Distribute(m, DynamicSum(h, cs[..|cs| - 1]), if Dynamic(n) then Size(n) else 0.0);
    }
  }

  lemma {:induction false} Distribute(m: real, a: real, b: real)
    ensures m * (a + b) == m * a + b * m
  {
  }

  /**
   * The rounding carry (lines 714-720): the new dynamic sizes plus the final
   * carry add up to `m` times the old dynamic sum, and the carry is at most
   * one half in magnitude; fixed sizes do not change.
   */
  lemma {:induction false} RescaleCarry(h: seq<Cell>, cs: seq<nat>, m: real)
    requires Above(cs, -1, |h|) && Increasing(cs)
    ensures var (h', carry) := Rescale(h, cs, Scaling(m));
      DynamicSum(h', cs) + carry == m * DynamicSum(h, cs) &&
      -1.0 / 2.0 <= carry <= 1.0 / 2.0 &&
      FixedSum(h', cs) == FixedSum(h, cs) && BlockCount(h', cs) == BlockCount(h, cs)
  {
    RescaleScaled(h, cs, Scaling(m));
    RescaleBounds(h, cs, Scaling(m));
    ScaledSumIsProduct(h, cs, m);
  }

  /** For any scaling, the new dynamic sizes plus the carry add up to the scaled old sizes. */
  lemma {:induction false} RescaleScaled(h: seq<Cell>, cs: seq<nat>, scale: real -> real)
    requires Above(cs, -1, |h|) && Increasing(cs)
    ensures DynamicSum(Rescale(h, cs, scale).0, cs) + Rescale(h, cs, scale).1 == ScaledSum(h, cs, scale)
  {
    if cs != [] {
      RescaleScaled(h, cs[..|cs| - 1], scale);
      RescaleLast(h, cs, scale);
      if Dynamic(h[cs[|cs| - 1]].node) {
        RescaleScaledDynamic(h, cs, scale);
      } else {
        RescaleScaledStatic(h, cs, scale);
      }
    }
  }

  /** The inductive step of `RescaleScaled` when the last child is a dynamic block. */
  lemma {:induction false} RescaleScaledDynamic(h: seq<Cell>, cs: seq<nat>, scale: real -> real)
    requires Above(cs, -1, |h|) && Increasing(cs) && cs != [] && Dynamic(h[cs[|cs| - 1]].node)
    requires var pre := cs[..|cs| - 1];
      DynamicSum(Rescale(h, pre, scale).0, pre) + Rescale(h, pre, scale).1 == ScaledSum(h, pre, scale) &&
      Rescale(h, pre, scale).0[cs[|cs| - 1]] == h[cs[|cs| - 1]] &&
      DynamicSum(Rescale(h, pre, scale).0, pre) == DynamicSum(Rescale(h, cs, scale).0, pre)
    ensures DynamicSum(Rescale(h, cs, scale).0, cs) + Rescale(h, cs, scale).1 == ScaledSum(h, cs, scale)
  {
    var pre := cs[..|cs| - 1];
    var n := h[cs[|cs| - 1]].node;
    var (h1, carry) := Rescale(h, pre, scale);
    var r := RescaleOne(n, scale(Size(n)) + carry);
    var h2 := h1[cs[|cs| - 1] := h1[cs[|cs| - 1]].(node := r.0)];
    assert Rescale(h, cs, scale) == (h2, r.1);
    assert DynamicSum(h2, cs) == DynamicSum(h1, pre) + Size(r.0);
    assert ScaledSum(h, cs, scale) == ScaledSum(h, pre, scale) + scale(Size(n));
  }

  /** The inductive step of `RescaleScaled` when the last child is left as it is. */
  lemma {:induction false} RescaleScaledStatic(h: seq<Cell>, cs: seq<nat>, scale: real -> real)
    requires Above(cs, -1, |h|) && Increasing(cs) && cs != [] && !Dynamic(h[cs[|cs| - 1]].node)
    requires var pre := cs[..|cs| - 1];
      DynamicSum(Rescale(h, pre, scale).0, pre) + Rescale(h, pre, scale).1 == ScaledSum(h, pre, scale) &&
      Rescale(h, pre, scale).0[cs[|cs| - 1]] == h[cs[|cs| - 1]]
    ensures DynamicSum(Rescale(h, cs, scale).0, cs) + Rescale(h, cs, scale).1 == ScaledSum(h, cs, scale)
  {
    var pre := cs[..|cs| - 1];
    assert Rescale(h, cs, scale) == Rescale(h, pre, scale);
    assert DynamicSum(Rescale(h, cs, scale).0, cs) == DynamicSum(Rescale(h, pre, scale).0, pre);
    assert ScaledSum(h, cs, scale) == ScaledSum(h, pre, scale);
  }

  /** The last step of the second loop reads the untouched last child and leaves the sums over the others alone. */
  lemma {:induction false} RescaleLast(h: seq<Cell>, cs: seq<nat>, scale: real -> real)
    requires Above(cs, -1, |h|) && Increasing(cs) && cs != []
    ensures var pre := cs[..|cs| - 1];
      var h1 := Rescale(h, pre, scale).0;
      var h2 := Rescale(h, cs, scale).0;
      h1[cs[|cs| - 1]] == h[cs[|cs| - 1]] &&
      DynamicSum(h1, pre) == DynamicSum(h2, pre) && FixedSum(h1, pre) == FixedSum(h2, pre) &&
      BlockCount(h1, pre) == BlockCount(h2, pre)
  {
    var pre := cs[..|cs| - 1];
    var c := cs[|cs| - 1];
    var h1 := Rescale(h, pre, scale).0;
    var h2 := Rescale(h, cs, scale).0;
    assert c !in pre;
    RescaleCells(h, pre, scale);
    assert forall k :: 0 <= k < |pre| ==> pre[k] != c;
    assert forall k :: 0 <= k < |pre| ==> h1[pre[k]] == h2[pre[k]];
    SumsFrame(h1, h2, pre);
  }

  /** The carry stays within one half, and the fixed sizes and the block count do not change. */
  lemma {:induction false} RescaleBounds(h: seq<Cell>, cs: seq<nat>, scale: real -> real)
    requires Above(cs, -1, |h|) && Increasing(cs)
    ensures -1.0 / 2.0 <= Rescale(h, cs, scale).1 <= 1.0 / 2.0
    ensures FixedSum(Rescale(h, cs, scale).0, cs) == FixedSum(h, cs)
    ensures BlockCount(Rescale(h, cs, scale).0, cs) == BlockCount(h, cs)
  {
    if cs != [] {
      RescaleBounds(h, cs[..|cs| - 1], scale);
      RescaleLast(h, cs, scale);
    }
  }

  /** A sum over integral sizes is integral. */
  lemma {:induction false} DynamicSumIntegral(h: seq<Cell>, cs: seq<nat>)
    requires Above(cs, -1, |h|)
    requires forall k :: 0 <= k < |cs| && Dynamic(h[cs[k]].node) ==> Integral(Size(h[cs[k]].node))
    ensures Integral(DynamicSum(h, cs))
  {
    if cs != [] {
      var pre := cs[..|cs| - 1];
      assert forall k :: 0 <= k < |pre| ==> pre[k] == cs[k];
      DynamicSumIntegral(h, pre);
      var n := h[cs[|cs| - 1]].node;
      var a := DynamicSum(h, pre);
      var b := if Dynamic(n) then Size(n) else 0.0;
      assert (a + b).Floor == a.Floor + b.Floor;
    }
  }

  /**
   * The width carry invariant (lines 704-721): rescaling with a multiplier
   * that takes the dynamic sum to `100 - fixedSize` (which `Multiplier` does
   * whenever the dynamic sum is not zero, see `MultiplierFills`) gives every
   * dynamic block child an integer size, leaves fixed blocks and the other
   * children untouched, and makes the new dynamic sizes add up to
   * `100 - fixedSize` up to a carry of at most one half; exactly so when
   * `fixedSize` is an integer.
   */
  lemma {:induction false} RescaleBalances(h: seq<Cell>, cs: seq<nat>, m: real, fixed: real)
    requires Above(cs, -1, |h|) && Increasing(cs)
    requires fixed == FixedSum(h, cs) && m * DynamicSum(h, cs) == 100.0 - fixed
    ensures var h' := Rescale(h, cs, Scaling(m)).0;
      (forall k :: 0 <= k < |cs| && Dynamic(h[cs[k]].node) ==> Integral(Size(h'[cs[k]].node))) &&
      (forall i :: 0 <= i < |h| && (i !in cs || !Dynamic(h[i].node)) ==> h'[i] == h[i]) &&
      FixedSum(h', cs) == fixed &&
      -1.0 / 2.0 <= 100.0 - fixed - DynamicSum(h', cs) <= 1.0 / 2.0 &&
      (Integral(fixed) ==> DynamicSum(h', cs) == 100.0 - fixed)
  {
    var h' := Rescale(h, cs, Scaling(m)).0;
    var d := DynamicSum(h', cs);
    RescaleFills(h, cs, m, 100.0 - fixed);
    RescaleBounds(h, cs, Scaling(m));
    RescaleCells(h, cs, Scaling(m));
    assert -1.0 / 2.0 <= 100.0 - fixed - d <= 1.0 / 2.0;
    if Integral(fixed) {
      DynamicSumIntegral(h', cs);
      IntegralRoom(fixed);
      IntegralHalf(100.0 - fixed, d);
    }
  }

  lemma {:induction false} IntegralRoom(fixed: real)
    requires Integral(fixed)
    ensures Integral(100.0 - fixed)
  {
    assert (100.0 - fixed).Floor == 100 - fixed.Floor;
  }

  /** With a multiplier that scales the dynamic sum to `room`, the rescaled sizes and the carry fill `room`. */
  lemma {:induction false} RescaleFills(h: seq<Cell>, cs: seq<nat>, m: real, room: real)
    requires Above(cs, -1, |h|) && Increasing(cs)
    requires m * DynamicSum(h, cs) == room
    ensures DynamicSum(Rescale(h, cs, Scaling(m)).0, cs) + Rescale(h, cs, Scaling(m)).1 == room
  {
    RescaleScaled(h, cs, Scaling(m));
    ScaledSumIsProduct(h, cs, m);
  }

  /** Scaling the dynamic sum by the multiplier gives the room the fixed blocks leave. */
  lemma {:induction false} MultiplierFills(t: Tally)
    requires t.dynamic != 0.0
    ensures Multiplier(t) * t.dynamic == 100.0 - t.fixed
  {
  }

  /** Two integers within one half of each other are equal. */
  lemma {:induction false} IntegralHalf(a: real, b: real)
    requires Integral(a) && Integral(b) && -1.0 / 2.0 <= a - b <= 1.0 / 2.0
    ensures a == b
  {
    var d := a.Floor - b.Floor;
    assert a - b == d as real;
  }

  /**
   * The tally of the first loop is taken over the filled children (lines
   * 677-693), and the second loop runs exactly when the tally asks for it.
   */
  lemma {:induction false} BalanceTally(h: seq<Cell>, x: nat)
    requires ValidHeap(h) && x < |h| && h[x].children != []
    ensures var cs := h[x].children;
      var p := Prepare(h, cs, |cs|);
      p.1 == Tally(DynamicSum(p.0, cs), FixedSum(p.0, cs), BlockCount(p.0, cs)) &&
      Balance(h, x) == if ShouldRescale(p.1) then Rescale(p.0, cs, Scaling(Multiplier(p.1))).0 else p.0
  {
    PrepareTally(h, h[x].children, |h[x].children|);
  }

  /**
   * The width headline for one node (lines 677-721): when the second loop
   * runs on a non-zero dynamic sum, every dynamic block child gets an integer
   * size, the fixed sizes stay as filled, and the children add up to 100 up
   * to a carry of at most one half; exactly 100 when the fixed sizes add up
   * to an integer.
   */
  lemma {:induction false} BalanceFills(h: seq<Cell>, x: nat)
    requires ValidHeap(h) && x < |h| && h[x].children != []
    ensures var cs := h[x].children;
      var p := Prepare(h, cs, |cs|);
      var h' := Balance(h, x);
      ShouldRescale(p.1) && p.1.dynamic != 0.0 ==>
        (forall k :: 0 <= k < |cs| && Dynamic(p.0[cs[k]].node) ==> Integral(Size(h'[cs[k]].node))) &&
        FixedSum(h', cs) == FixedSum(p.0, cs) &&
        -1.0 / 2.0 <= 100.0 - FixedSum(h', cs) - DynamicSum(h', cs) <= 1.0 / 2.0 &&
        (Integral(FixedSum(h', cs)) ==> FixedSum(h', cs) + DynamicSum(h', cs) == 100.0)
  {
    var cs := h[x].children;
    var p := Prepare(h, cs, |cs|);
    BalanceTally(h, x);
    if ShouldRescale(p.1) && p.1.dynamic != 0.0 {
      assert Above(cs, -1, |p.0|) && Increasing(cs) by {
        assert Above(cs, x, |h|) && Increasing(cs);
      }
      TallyFills(p.0, cs, p.1);
    }
  }

  /** The second loop with the multiplier of a tally over the sizes it rescales. */
  lemma {:induction false} TallyFills(h: seq<Cell>, cs: seq<nat>, t: Tally)
    requires Above(cs, -1, |h|) && Increasing(cs)
    requires t.dynamic == DynamicSum(h, cs) && t.fixed == FixedSum(h, cs) && t.dynamic != 0.0
    ensures var h' := Rescale(h, cs, Scaling(Multiplier(t))).0;
      (forall k :: 0 <= k < |cs| && Dynamic(h[cs[k]].node) ==> Integral(Size(h'[cs[k]].node))) &&
      FixedSum(h', cs) == FixedSum(h, cs) &&
      -1.0 / 2.0 <= 100.0 - FixedSum(h', cs) - DynamicSum(h', cs) <= 1.0 / 2.0 &&
      (Integral(FixedSum(h', cs)) ==> FixedSum(h', cs) + DynamicSum(h', cs) == 100.0)
  {
    MultiplierFills(t);
    RescaleBalances(h, cs, Multiplier(t), t.fixed);
  }

  /** The default fill (line 685-687): a block without a size gets 100 divided by the number of all children. */
  lemma {:induction false} PrepareDefaults(h: seq<Cell>, x: nat)
    requires ValidHeap(h) && x < |h| && h[x].children != []
    ensures var cs := h[x].children;
      var h1 := Prepare(h, cs, |cs|).0;
      forall k :: 0 <= k < |cs| ==>
        (IsBlock(h[cs[k]].node) && !IsSet(h[cs[k]].node.attributes, "size") ==> Size(h1[cs[k]].node) == 100.0 / |cs| as real) &&
        (!IsBlock(h[cs[k]].node) || IsSet(h[cs[k]].node.attributes, "size") ==> h1[cs[k]] == h[cs[k]])
  {
    var cs := h[x].children;
    PrepareCells(h, cs, |cs|);
  }

  /**
   * The skip cases (lines 671-673, 695-703): a node with no block children,
   * or whose one-decimal dynamic sum is 100 or the canonical split for its
   * block count, keeps the filled sizes as they are.
   */
  lemma {:induction false} BalanceSkips(h: seq<Cell>, x: nat)
    requires ValidHeap(h) && x < |h| && h[x].children != []
    ensures var cs := h[x].children;
      var h1 := Prepare(h, cs, |cs|).0;
      var count := BlockCount(h1, cs);
      (count == 0 || Round1(DynamicSum(h1, cs)) == 100.0 || Round1(DynamicSum(h1, cs)) == CanonicalSum(count))
        ==> Balance(h, x) == h1
  {
    var cs := h[x].children;
    PrepareTally(h, cs, |cs|);
    var p := Prepare(h, cs, |cs|);
    assert p.1 == Tally(DynamicSum(p.0, cs), FixedSum(p.0, cs), BlockCount(p.0, cs));
    assert Balance(h, x) == RescaleIf(p, cs);
  }
}
