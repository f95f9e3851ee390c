/**
 * `concatenate`, the one place where ropes are joined, with the three
 * optimisations of Boehm, Atkinson and Plass: short results are flattened
 * into a single string, a short rope next to a concatenation node is folded
 * into that node's near child, and a tree that grows deeper than
 * `MAX_ROPE_DEPTH` is rebalanced.
 */
module Concatenating {
  import opened JavaLang
  import opened Ropes
  import opened Rebalancing
  import CS = CharSequences

  const MAX_ROPE_DEPTH: nat := 96

  /** Below this combined length two ropes are copied into one flat string. */
  const COMBINE_LENGTH: int := 17

  /** A `FlatCharSequenceRope` over a freshly built `String`. */
  function FlatString(s: seq<char>): Rope {
    FlatSeq(CS.JString(s))
  }

  /** Every leaf below the node is non-empty. */
  predicate NoEmptyLeaf(r: Rope) {
    if r.Concat? then NoEmptyLeaf(r.left) && NoEmptyLeaf(r.right) else Length(r) > 0
  }

  /**
   * The shape `concatenate` maintains: no deeper than `MAX_ROPE_DEPTH`, and
   * no empty leaf under a concatenation node.
   */
  predicate Balanced(r: Rope) {
    Depth(r) <= MAX_ROPE_DEPTH && (r.Concat? ==> NoEmptyLeaf(r))
  }

  /** Both children of a balanced concatenation node are balanced. */
  lemma BalancedChildren(r: Rope)
    requires r.Concat?
    ensures Balanced(r) ==> Balanced(r.left) && Balanced(r.right)
  {
  }

  /** The recursive definition agrees with "every leaf has a character". */
  lemma {:induction false} NoEmptyLeafIff(r: Rope)
    ensures NoEmptyLeaf(r) <==> forall k :: 0 <= k < |Leaves(r)| ==> Length(Leaves(r)[k]) > 0
  {
    if r.Concat? {
      NoEmptyLeafIff(r.left);
      NoEmptyLeafIff(r.right);
      var a, b := Leaves(r.left), Leaves(r.right);
      assert Leaves(r) == a + b;
      if NoEmptyLeaf(r) {
        assert NoEmptyLeaf(r.left) && NoEmptyLeaf(r.right);
        forall k | 0 <= k < |a| + |b| ensures Length(Leaves(r)[k]) > 0 {
          if k < |a| {
            assert Leaves(r)[k] == a[k];
            assert 0 <= k < |Leaves(r.left)|;
            assert Length(Leaves(r.left)[k]) > 0;
          } else {
            assert Leaves(r)[k] == b[k - |a|];
            assert Length(Leaves(r.right)[k - |a|]) > 0;
          }
        }
      } else if !NoEmptyLeaf(r.left) {
        var k :| 0 <= k < |a| && Length(a[k]) <= 0;
        assert Leaves(r)[k] == a[k];
      } else {
        var k :| 0 <= k < |b| && Length(b[k]) <= 0;
        assert Leaves(r)[|a| + k] == b[k];
      }
    } else {
      assert Leaves(r) == [r];
      assert Leaves(r)[0] == r;
    }
  }

  /** A rope whose leaves are all non-empty has no more leaves than characters. */
  lemma {:induction false} LeafCount(r: Rope)
    requires Valid(r) && NoEmptyLeaf(r)
    ensures |Leaves(r)| <= Length(r)
  {
    if r.Concat? {
      LeafCount(r.left);
      LeafCount(r.right);
    }
  }

  lemma {:induction false} Pow2Add(a: nat, b: nat)
    ensures Pow2(a + b) == Pow2(a) * Pow2(b)
  {
    if a > 0 {
      Pow2Add(a - 1, b);
    }
  }

  /** 2^31, one more than `Int.MAX_VALUE`. */
  lemma Pow2Of31()
    ensures Pow2(31) == INT_MAX + 1
  {
    var p4 := Pow2(4);
    assert p4 == 16;
    Pow2Add(4, 4);
    var p8 := Pow2(8);
    assert p8 == 256;
    Pow2Add(8, 8);
    var p16 := Pow2(16);
    assert p16 == 65536;
    Pow2Add(16, 8);
    var p24 := Pow2(24);
    assert p24 == 16777216;
    Pow2Add(24, 4);
    var p28 := Pow2(28);
    assert p28 == 268435456;
    assert Pow2(3) == 8;
    Pow2Add(28, 3);
  }

  lemma {:induction false} CeilLog2Monotone(n: int, k: nat)
    requires 1 <= n <= Pow2(k)
    ensures CeilLog2(n) <= k
    decreases n
  {
    if n > 1 {
      CeilLog2Monotone((n + 1) / 2, k - 1);
    }
  }

  /**
   * `maybeRebalance`: a rope deeper than `MAX_ROPE_DEPTH` is rebalanced,
   * down to the least depth its leaves allow; any other comes back as it
   * is. Either way the leaves and the characters are the same, and a
   * concatenation node without empty leaves comes out balanced.
   */
  function MaybeRebalance(x: Rope): (y: Rope)
    requires Valid(x)
    ensures Valid(y) && Content(y) == Content(x)
    ensures Leaves(y) == Leaves(x)
    ensures Depth(x) <= MAX_ROPE_DEPTH ==> y == x
    ensures Depth(x) > MAX_ROPE_DEPTH ==> y == RebalanceOf(x) && Depth(y) <= CeilLog2(|Leaves(x)|)
    ensures x.Concat? && NoEmptyLeaf(x) ==> Balanced(y)
  {
    RebalanceCorrect(x);
    if Depth(x) > MAX_ROPE_DEPTH then
      var y := RebalanceOf(x);
      if x.Concat? && NoEmptyLeaf(x) then
        NoEmptyLeafIff(x);
        NoEmptyLeafIff(y);
        LeafCount(x);
        LengthBounds(x);
        Pow2Of31();
        CeilLog2Monotone(|Leaves(x)|, 31);
        y
      else
        y
    else
      x
  }

  /** The first fold: a short rope that is no concatenation node joins the left child of `right`. */
  function FoldIntoRight(left: Rope, right: Rope): (y: Rope)
    requires Valid(left) && Valid(right) && right.Concat? && Length(left) + Length(right) <= INT_MAX
    requires 0 < Length(left) && Length(left) + Length(right.left) < COMBINE_LENGTH
    ensures Valid(y) && Content(y) == Content(left) + Content(right)
    ensures Leaves(y) == [FlatString(Content(left) + Content(right.left))] + Leaves(right.right)
    ensures Balanced(right) ==> Balanced(y)
  {
    LengthBounds(left);
    LengthBounds(right.left);
    LengthBounds(right.right);
    var f := FlatString(Content(left) + Content(right.left));
    assert Length(f) == Length(left) + Length(right.left) && Depth(f) == 0;
    assert Content(f) == Content(left) + Content(right.left);
    assert Content(left) + Content(right) == (Content(left) + Content(right.left)) + Content(right.right);
    assert Leaves(f) == [f];
    assert Leaves(Concat(f, right.right)) == [f] + Leaves(right.right);
    MaybeRebalance(Concat(f, right.right))
  }

  /** The second fold: a short rope that is no concatenation node joins the right child of `left`. */
  function FoldIntoLeft(left: Rope, right: Rope): (y: Rope)
    requires Valid(left) && Valid(right) && left.Concat? && Length(left) + Length(right) <= INT_MAX
    requires 0 < Length(right) && Length(right) + Length(left.right) < COMBINE_LENGTH
    ensures Valid(y) && Content(y) == Content(left) + Content(right)
    ensures Leaves(y) == Leaves(left.left) + [FlatString(Content(left.right) + Content(right))]
    ensures Balanced(left) ==> Balanced(y)
  {
    LengthBounds(right);
    LengthBounds(left.left);
    LengthBounds(left.right);
    var f := FlatString(Content(left.right) + Content(right));
    assert Length(f) == Length(left.right) + Length(right) && Depth(f) == 0;
    assert Content(f) == Content(left.right) + Content(right);
    assert Content(left) + Content(right) == Content(left.left) + (Content(left.right) + Content(right));
    assert Leaves(f) == [f];
    assert Leaves(Concat(left.left, f)) == Leaves(left.left) + [f];
    MaybeRebalance(Concat(left.left, f))
  }

  /** No optimisation applies: a new concatenation node over both operands. */
  function Join(left: Rope, right: Rope): (y: Rope)
    requires Valid(left) && Valid(right) && Length(left) + Length(right) <= INT_MAX
    requires 0 < Length(left) && 0 < Length(right)
    ensures Valid(y) && Content(y) == Content(left) + Content(right)
    ensures Leaves(y) == Leaves(left) + Leaves(right)
    ensures Balanced(left) && Balanced(right) ==> Balanced(y)
  {
    assert Balanced(left) ==> NoEmptyLeaf(left);
    assert Balanced(right) ==> NoEmptyLeaf(right);
    MaybeRebalance(Concat(left, right))
  }

  /**
   * `concatenate(left, right)`. An empty operand gives back the other one;
   * a combined length beyond `Int.MAX_VALUE` is refused with
   * IllegalArgument; otherwise the result stands for the two ropes'
   * characters one after the other, and is a single flat string when it is
   * shorter than `COMBINE_LENGTH`. Two concatenation nodes are never folded:
   * their leaves are shared, in order.
   */
  function Concatenate(left: Rope, right: Rope): (r: Result<Rope>)
    requires Valid(left) && Valid(right)
    ensures r.Ok? <==> Length(left) + Length(right) <= INT_MAX
    ensures r.Err? ==> r.error == IllegalArgument
    ensures r.Ok? ==> Valid(r.value) && Content(r.value) == Content(left) + Content(right)
    ensures Length(left) == 0 ==> r == Ok(right)
    ensures Length(left) != 0 && Length(right) == 0 ==> r == Ok(left)
    ensures Length(left) != 0 && Length(right) != 0 && Length(left) + Length(right) < COMBINE_LENGTH ==>
      r.Ok? && r.value.FlatSeq? && r.value.cs.JString?
    ensures r.Ok? && Balanced(left) && Balanced(right) ==> Balanced(r.value)
    ensures r.Ok? && left.Concat? && right.Concat? &&
            (Length(left) != 0 && Length(right) != 0 && COMBINE_LENGTH <= Length(left) + Length(right)) ==>
      Leaves(r.value) == Leaves(left) + Leaves(right)
    ensures r.Ok? && !left.Concat? && right.Concat? &&
            (Length(left) != 0 && COMBINE_LENGTH <= Length(left) + Length(right)) &&
            Length(left) + Length(right.left) < COMBINE_LENGTH ==>
      Leaves(r.value) == [FlatString(Content(left) + Content(right.left))] + Leaves(right.right)
    ensures r.Ok? && left.Concat? && !right.Concat? &&
            (Length(right) != 0 && COMBINE_LENGTH <= Length(left) + Length(right)) &&
            Length(right) + Length(left.right) < COMBINE_LENGTH ==>
      Leaves(r.value) == Leaves(left.left) + [FlatString(Content(left.right) + Content(right))]
  {
    LengthBounds(left);
    LengthBounds(right);
    if Length(left) == 0 then Ok(right)
    else if Length(right) == 0 then Ok(left)
    else if Length(left) + Length(right) > INT_MAX then Err(IllegalArgument)
    else if Length(left) + Length(right) < COMBINE_LENGTH then
      Ok(FlatString(Content(left) + Content(right)))
    else if !left.Concat? && right.Concat? && Length(left) + Length(right.left) < COMBINE_LENGTH then
      Ok(FoldIntoRight(left, right))
    else if !right.Concat? && left.Concat? && Length(right) + Length(left.right) < COMBINE_LENGTH then
      Ok(FoldIntoLeft(left, right))
    else
      Ok(Join(left, right))
  }
}
