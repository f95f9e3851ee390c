/**
 * Rebalancing a rope that has grown too deep: collect its leaves left to
 * right with an explicit stack, then rebuild a concatenation tree over them
 * by halving the leaf range. The leaves themselves (flat ropes, substring
 * and reversed views) are kept as they are and never decomposed.
 */
module Rebalancing {
  import opened JavaLang
  import opened Ropes

  /** The non-concatenation nodes of `r`, left to right. */
  function Leaves(r: Rope): (ls: seq<Rope>)
    ensures |ls| >= 1
  {
    if r.Concat? then Leaves(r.left) + Leaves(r.right) else [r]
  }

  /** No leaf is a concatenation node. */
  lemma {:induction false} LeavesAreLeaves(r: Rope)
    ensures forall k :: 0 <= k < |Leaves(r)| ==> !Leaves(r)[k].Concat?
  {
    if r.Concat? {
      var a, b := Leaves(r.left), Leaves(r.right);
      LeavesAreLeaves(r.left);
      LeavesAreLeaves(r.right);
      forall k | 0 <= k < |a| + |b|
        ensures !Leaves(r)[k].Concat?
      {
        if k < |a| {
          assert Leaves(r)[k] == a[k];
        } else {
          assert Leaves(r)[k] == b[k - |a|];
        }
      }
    }
  }

  /** The leaves of every rope of a work stack, top first. */
  function LeavesOfAll(stack: seq<Rope>): seq<Rope> {
    if stack == [] then [] else Leaves(stack[0]) + LeavesOfAll(stack[1..])
  }

  /** The number of nodes of a rope, a measure for the leaf walk. */
  function Size(r: Rope): nat {
    if r.Concat? then 1 + Size(r.left) + Size(r.right) else 1
  }

  function SizeOfAll(stack: seq<Rope>): nat {
    if stack == [] then 0 else Size(stack[0]) + SizeOfAll(stack[1..])
  }

  lemma LeavesOfAllCons(x: Rope, rest: seq<Rope>)
    ensures LeavesOfAll([x] + rest) == Leaves(x) + LeavesOfAll(rest)
    ensures SizeOfAll([x] + rest) == Size(x) + SizeOfAll(rest)
  {
    assert ([x] + rest)[1..] == rest;
  }

  /** Replacing a concatenation node on the stack by its children keeps the leaves and shrinks the stack. */
  lemma SplitNode(x: Rope, rest: seq<Rope>)
    requires x.Concat?
    ensures LeavesOfAll([x.left, x.right] + rest) == LeavesOfAll([x] + rest)
    ensures SizeOfAll([x.left, x.right] + rest) < SizeOfAll([x] + rest)
  {
    LeavesOfAllCons(x, rest);
    LeavesOfAllCons(x.left, [x.right] + rest);
    LeavesOfAllCons(x.right, rest);
    assert [x.left, x.right] + rest == [x.left] + ([x.right] + rest);
    AppendAssoc(Leaves(x.left), Leaves(x.right), LeavesOfAll(rest));
  }

  lemma AppendAssoc(a: seq<Rope>, b: seq<Rope>, c: seq<Rope>)
    ensures a + (b + c) == (a + b) + c
  {
  }

  /** Taking a leaf off the stack moves it to the front of the collected leaves. */
  lemma LeafStep(x: Rope, rest: seq<Rope>)
    requires !x.Concat?
    ensures LeavesOfAll([x] + rest) == [x] + LeavesOfAll(rest)
    ensures SizeOfAll(rest) < SizeOfAll([x] + rest)
  {
    LeavesOfAllCons(x, rest);
  }

  /**
   * `merge(leafNodes, start, end)`: one leaf stands for itself, two become
   * one concatenation node, and a longer range is split at its middle.
   */
  function Merge(leaves: seq<Rope>, start: int, end: int): Rope
    requires 0 <= start < end <= |leaves|
    decreases end - start
  {
    var range := end - start;
    if range == 1 then leaves[start]
    else if range == 2 then Concat(leaves[start], leaves[start + 1])
    else
      var middle := start + range / 2;
      Concat(Merge(leaves, start, middle), Merge(leaves, middle, end))
  }

  /** What `rebalance(r)` returns. */
  function RebalanceOf(r: Rope): Rope {
    Merge(Leaves(r), 0, |Leaves(r)|)
  }

  /** `rebalance`: a depth-first walk with a work stack collects the leaves, then `merge` builds the tree. */
  method Rebalance(r: Rope) returns (res: Rope)
    ensures res == RebalanceOf(r)
  {
    var leafNodes: seq<Rope> := [];
    var toExamine: seq<Rope> := [r];
    while toExamine != []
      invariant Leaves(r) == leafNodes + LeavesOfAll(toExamine)
      decreases SizeOfAll(toExamine)
    {
      var x := toExamine[0];
      var rest := toExamine[1..];
      assert toExamine == [x] + rest;
      if x.Concat? {
        SplitNode(x, rest);
        toExamine := [x.left, x.right] + rest;
      } else {
        LeafStep(x, rest);
        leafNodes := leafNodes + [x];
        toExamine := rest;
      }
    }
    assert leafNodes + [] == leafNodes;
    res := Merge(leafNodes, 0, |leafNodes|);
  }

  /** The leaves of a valid rope are valid and spell out its content. */
  lemma {:induction false} LeavesContent(r: Rope)
    requires Valid(r)
    ensures AllValid(Leaves(r))
    ensures Flatten(Leaves(r)) == Content(r)
    ensures TotalLength(Leaves(r)) == Length(r)
  {
    if r.Concat? {
      LeavesContent(r.left);
      LeavesContent(r.right);
      FlattenAppend(Leaves(r.left), Leaves(r.right));
      TotalLengthAppend(Leaves(r.left), Leaves(r.right));
    } else {
      assert Leaves(r)[1..] == [];
    }
  }

  /** Merging keeps the leaves, in order. */
  lemma {:induction false} MergeLeaves(leaves: seq<Rope>, start: int, end: int)
    requires 0 <= start < end <= |leaves|
    requires forall k :: start <= k < end ==> !leaves[k].Concat?
    ensures Leaves(Merge(leaves, start, end)) == leaves[start..end]
    decreases end - start
  {
    var range := end - start;
    if range <= 2 {
      MergeLeavesBase(leaves, start, end);
    } else {
      var middle := start + range / 2;
      var a, b := Merge(leaves, start, middle), Merge(leaves, middle, end);
      MergeLeaves(leaves, start, middle);
      MergeLeaves(leaves, middle, end);
      MergeSplit(leaves, start, middle, end);
      LeavesOfNode(a, b);
      SliceSplit(leaves, start, middle, end);
    }
  }

  lemma LeavesOfNode(a: Rope, b: Rope)
    ensures Leaves(Concat(a, b)) == Leaves(a) + Leaves(b)
  {
  }

  /** A range of two leaves or more is merged into a node over its two merged halves. */
  lemma MergeSplit(leaves: seq<Rope>, start: int, middle: int, end: int)
    requires 0 <= start < end <= |leaves| && end - start >= 2 && middle == start + (end - start) / 2
    ensures start < middle < end
    ensures Merge(leaves, start, end) == Concat(Merge(leaves, start, middle), Merge(leaves, middle, end))
  {
  }

  /** One leaf is merged into itself, two into one node over them. */
  lemma MergeLeavesBase(leaves: seq<Rope>, start: int, end: int)
    requires 0 <= start < end <= |leaves| && end - start <= 2
    requires !leaves[start].Concat? && (end - start == 2 ==> !leaves[start + 1].Concat?)
    ensures Leaves(Merge(leaves, start, end)) == leaves[start..end]
  {
    if end - start == 1 {
      assert leaves[start..end] == [leaves[start]];
    } else {
      assert leaves[start..end] == [leaves[start]] + [leaves[start + 1]];
    }
  }

  lemma SliceSplit(leaves: seq<Rope>, start: int, middle: int, end: int)
    requires 0 <= start <= middle <= end <= |leaves|
    ensures leaves[start..end] == leaves[start..middle] + leaves[middle..end]
  {
  }

  /** The lemma's sub-range view of `TotalLength`. */
  lemma {:induction false} TotalLengthSplit(leaves: seq<Rope>, start: int, middle: int, end: int)
    requires 0 <= start <= middle <= end <= |leaves|
    ensures TotalLength(leaves[start..end]) == TotalLength(leaves[start..middle]) + TotalLength(leaves[middle..end])
  {
    SliceSplit(leaves, start, middle, end);
    TotalLengthAppend(leaves[start..middle], leaves[middle..end]);
  }

  lemma {:induction false} TotalLengthNonNegative(rs: seq<Rope>)
    requires AllValid(rs)
    ensures TotalLength(rs) >= 0
  {
    if rs != [] {
      LengthBounds(rs[0]);
      TotalLengthNonNegative(rs[1..]);
    }
  }

  lemma SliceValid(leaves: seq<Rope>, start: int, end: int)
    requires 0 <= start <= end <= |leaves|
    requires forall k :: start <= k < end ==> Valid(leaves[k])
    ensures AllValid(leaves[start..end])
  {
    forall k | 0 <= k < end - start ensures Valid(leaves[start..end][k]) {
      assert leaves[start..end][k] == leaves[start + k];
    }
  }

  /** The content of one leaf, viewed as a list. */
  lemma FlattenSingle(x: Rope)
    requires Valid(x)
    ensures AllValid([x]) && Flatten([x]) == Content(x) && TotalLength([x]) == Length(x)
  {
    assert [x][1..] == [];
  }

  /**
   * Over valid leaves whose lengths fit an `Int`, the merged tree is valid,
   * and it stands for the leaves' characters in order.
   */
  lemma {:induction false} MergeContent(leaves: seq<Rope>, start: int, end: int)
    requires 0 <= start < end <= |leaves|
    requires forall k :: start <= k < end ==> Valid(leaves[k])
    requires TotalLength(leaves[start..end]) <= INT_MAX
    ensures AllValid(leaves[start..end])
    ensures Length(Merge(leaves, start, end)) == TotalLength(leaves[start..end])
    ensures Valid(Merge(leaves, start, end))
    ensures Content(Merge(leaves, start, end)) == Flatten(leaves[start..end])
    decreases end - start
  {
    SliceValid(leaves, start, end);
    var range := end - start;
    if range == 1 {
      var x := leaves[start];
      assert leaves[start..end] == [x];
      assert Merge(leaves, start, end) == x;
      FlattenSingle(x);
    } else {
      var middle := start + range / 2;
      var la, lb := leaves[start..middle], leaves[middle..end];
      MergeSplit(leaves, start, middle, end);
      SliceSplit(leaves, start, middle, end);
      SliceValid(leaves, start, middle);
      SliceValid(leaves, middle, end);
      TotalLengthSplit(leaves, start, middle, end);
      TotalLengthNonNegative(la);
      TotalLengthNonNegative(lb);
      MergeContent(leaves, start, middle);
      MergeContent(leaves, middle, end);
      var a, b := Merge(leaves, start, middle), Merge(leaves, middle, end);
      NodeContent(a, b, la, lb);
      assert Merge(leaves, start, end) == Concat(a, b);
    }
  }

  /** A node over two trees that stand for two lists of leaves stands for the joined list. */
  lemma NodeContent(a: Rope, b: Rope, la: seq<Rope>, lb: seq<Rope>)
    requires Valid(a) && Valid(b) && AllValid(la) && AllValid(lb)
    requires Length(a) == TotalLength(la) && Length(b) == TotalLength(lb)
    requires Content(a) == Flatten(la) && Content(b) == Flatten(lb)
    requires TotalLength(la + lb) <= INT_MAX
    ensures Valid(Concat(a, b)) && Length(Concat(a, b)) == TotalLength(la + lb)
    ensures Content(Concat(a, b)) == Flatten(la + lb)
  {
    FlattenAppend(la, lb);
    TotalLengthAppend(la, lb);
  }

  function Pow2(k: nat): (p: nat)
    ensures p >= 1
  {
    if k == 0 then 1 else 2 * Pow2(k - 1)
  }

  /** The least `k` with `n <= 2^k`. */
  function CeilLog2(n: int): nat
    requires n >= 1
    decreases n
  {
    if n == 1 then 0 else 1 + CeilLog2((n + 1) / 2)
  }

  lemma {:induction false} CeilLog2Bounds(n: int)
    requires n >= 1
    ensures n <= Pow2(CeilLog2(n))
    ensures n > 1 ==> CeilLog2(n) >= 1 && Pow2(CeilLog2(n) - 1) < n
    decreases n
  {
    if n > 1 {
      CeilLog2Bounds((n + 1) / 2);
    }
  }

  /**
   * Halving keeps the tree shallow: over `2^h` or fewer leaves of depth at
   * most `d`, the merged tree is at most `h` levels deeper than its leaves.
   */
  lemma {:induction false} MergeDepth(leaves: seq<Rope>, start: int, end: int, d: nat, h: nat)
    requires 0 <= start < end <= |leaves|
    requires forall k :: start <= k < end ==> Depth(leaves[k]) <= d
    requires end - start <= Pow2(h)
    ensures Depth(Merge(leaves, start, end)) <= d + h
    decreases end - start
  {
    var range := end - start;
    if range == 1 {
      assert Merge(leaves, start, end) == leaves[start];
    } else {
      assert h >= 1 && Pow2(h) == 2 * Pow2(h - 1);
      var middle := start + range / 2;
      MergeSplit(leaves, start, middle, end);
      MergeDepth(leaves, start, middle, d, h - 1);
      MergeDepth(leaves, middle, end, d, h - 1);
    }
  }

  /**
   * What rebalancing promises: the same leaves in the same order, the same
   * characters, a valid tree, and a depth of at most the ceiling of the
   * binary logarithm of the number of leaves; a rope without concatenation
   * nodes comes back unchanged.
   */
  lemma RebalanceCorrect(r: Rope)
    requires Valid(r)
    ensures Leaves(RebalanceOf(r)) == Leaves(r)
    ensures Valid(RebalanceOf(r)) && Content(RebalanceOf(r)) == Content(r)
    ensures Depth(RebalanceOf(r)) <= CeilLog2(|Leaves(r)|)
    ensures !r.Concat? ==> RebalanceOf(r) == r
  {
    var ls := Leaves(r);
    LeavesAreLeaves(r);
    MergeLeaves(ls, 0, |ls|);
    assert ls[0..|ls|] == ls;
    LeavesContent(r);
    LengthBounds(r);
    MergeContent(ls, 0, |ls|);
    forall k | 0 <= k < |ls| ensures Depth(ls[k]) <= 0 {
      LeafDepth(ls[k]);
    }
    CeilLog2Bounds(|ls|);
    MergeDepth(ls, 0, |ls|, 0, CeilLog2(|ls|));
  }
}
