/**
 * The rope tree: the four node kinds of ropes4k (two kinds of flat leaf, a
 * substring view over a flat leaf, a reversed view, and a binary
 * concatenation node), their `length`, `depth` and `get`, the characters a
 * rope stands for, and the checked constructors of the two view-like leaves.
 */
module Ropes {
  import opened JavaLang
  import CS = CharSequences

  datatype Rope =
    | FlatChars(chars: seq<char>)                   // FlatCharArrayRope: a private copy of a char array
    | FlatSeq(cs: CS.CharSeq)                       // FlatCharSequenceRope: a borrowed CharSequence
    | Substring(base: Rope, offset: int, len: int)  // SubstringRope over a flat rope
    | Reversed(base: Rope)                          // ReverseRope
    | Concat(left: Rope, right: Rope)               // ConcatenationRope

  /** The two `FlatRope` implementations. */
  predicate IsFlat(r: Rope) {
    r.FlatChars? || r.FlatSeq?
  }

  /** `length`; a concatenation node fixes it at construction as the sum of its children's. */
  function Length(r: Rope): int {
    match r
    case FlatChars(a) => |a|
    case FlatSeq(cs) => CS.Length(cs)
    case Substring(_, _, n) => n
    case Reversed(b) => Length(b)
    case Concat(left, right) => Length(left) + Length(right)
  }

  /** `depth`; a concatenation node fixes it at construction as one more than its deeper child. */
  function Depth(r: Rope): (d: nat) {
    match r
    case FlatChars(_) => 0
    case FlatSeq(_) => 0
    case Substring(b, _, _) => Depth(b)
    case Reversed(b) => Depth(b)
    case Concat(left, right) =>
      (if Depth(left) < Depth(right) then Depth(right) else Depth(left)) + 1
  }

  /**
   * The shape every rope the library builds has: lengths fit a JVM `Int`, a
   * substring view is a sound window onto a flat rope, and a reversed view
   * wraps a flat rope or a substring view (the only nodes whose `reverse`
   * builds one).
   */
  predicate Valid(r: Rope) {
    match r
    case FlatChars(a) => |a| <= INT_MAX
    case FlatSeq(cs) => CS.Valid(cs)
    case Substring(b, o, n) => IsFlat(b) && Valid(b) && 0 <= o && 0 <= n && o + n <= Length(b)
    case Reversed(b) => (IsFlat(b) || b.Substring?) && Valid(b)
    case Concat(left, right) => Valid(left) && Valid(right) && Length(left) + Length(right) <= INT_MAX
  }

  /** `s` read back to front. */
  function Rev(s: seq<char>): (r: seq<char>)
    ensures |r| == |s|
    ensures forall k :: 0 <= k < |s| ==> r[k] == s[|s| - 1 - k]
  {
    seq(|s|, k requires 0 <= k < |s| => s[|s| - 1 - k])
  }

  lemma RevRev(s: seq<char>)
    ensures Rev(Rev(s)) == s
  {
  }

  lemma {:induction false} RevAppend(a: seq<char>, b: seq<char>)
    ensures Rev(a + b) == Rev(b) + Rev(a)
  {
    var l, r := Rev(a + b), Rev(b) + Rev(a);
    assert |l| == |r|;
    forall k | 0 <= k < |l| ensures l[k] == r[k] {
      if k < |b| {
        assert r[k] == Rev(b)[k] == b[|b| - 1 - k];
      } else {
        assert r[k] == Rev(a)[k - |b|] == a[|a| - 1 - (k - |b|)];
      }
    }
  }

  lemma RevSlice(s: seq<char>, i: int, j: int)
    requires 0 <= i <= j <= |s|
    ensures Rev(s[i..j]) == Rev(s)[|s| - j..|s| - i]
  {
  }

  /** The reversal of a prefix starts with its last character, followed by the reversal of the shorter prefix. */
  lemma RevOfPrefix(c: seq<char>, n: int)
    requires 0 < n <= |c|
    ensures Rev(c[..n])[0] == c[n - 1]
    ensures Rev(c[..n])[1..] == Rev(c[..n - 1])
  {
    assert c[..n][..n - 1] == c[..n - 1];
    RevSlice(c[..n], 0, n - 1);
  }

  /** The characters a valid rope stands for: what `toString()` returns. */
  function Content(r: Rope): (c: seq<char>)
    requires Valid(r)
    ensures |c| == Length(r)
  {
    match r
    case FlatChars(a) => a
    case FlatSeq(cs) => CS.Chars(cs)
    case Substring(b, o, n) => Content(b)[o..o + n]
    case Reversed(b) => Rev(Content(b))
    case Concat(left, right) => Content(left) + Content(right)
  }

  lemma {:induction false} LengthBounds(r: Rope)
    requires Valid(r)
    ensures 0 <= Length(r) <= INT_MAX
  {
    match r
    case Reversed(b) => LengthBounds(b);
    case Substring(b, _, _) => LengthBounds(b);
    case Concat(left, right) => LengthBounds(left); LengthBounds(right);
    case _ =>
  }

  /** Every node but a concatenation has depth 0 in a valid rope. */
  lemma LeafDepth(r: Rope)
    requires Valid(r) && !r.Concat?
    ensures Depth(r) == 0
  {
  }

  /** The rightmost leaf, where a left-to-right walk of the leaves ends (`OuterLeaves`). */
  function RightmostLeaf(r: Rope): (l: Rope)
    ensures !l.Concat?
    decreases r
  {
    if r.Concat? then RightmostLeaf(r.right) else r
  }

  /** The leftmost leaf, where a right-to-left walk of the leaves ends. */
  function LeftmostLeaf(r: Rope): (l: Rope)
    ensures !l.Concat?
    decreases r
  {
    if r.Concat? then LeftmostLeaf(r.left) else r
  }

  /** The rightmost leaf's characters end the rope's, and the leftmost leaf's begin them. */
  lemma {:induction false} OuterLeaves(r: Rope)
    requires Valid(r)
    ensures var l := RightmostLeaf(r);
      Valid(l) && |Content(l)| <= |Content(r)| && Content(l) == Content(r)[|Content(r)| - |Content(l)|..]
    ensures var l := LeftmostLeaf(r);
      Valid(l) && |Content(l)| <= |Content(r)| && Content(l) == Content(r)[..|Content(l)|]
    decreases r
  {
    if r.Concat? {
      OuterLeaves(r.left);
      OuterLeaves(r.right);
    }
  }

  /**
   * `get(index)` / `charAt(index)` exactly as each node does it: a
   * concatenation node and a substring view check only the upper bound, a
   * reversed view checks nothing and mirrors the index, and a repeated
   * character sequence answers for every index.
   */
  function Get(r: Rope, i: int): (res: Result<char>)
    ensures Valid(r) && 0 <= i < Length(r) ==> res == Ok(Content(r)[i])
    ensures Valid(r) && Length(r) <= i && (r.Concat? || r.Substring? || r.FlatChars?) ==>
      res == Err(IndexOutOfBounds)
    ensures Valid(r) && r.Substring? && -r.offset <= i < 0 ==>
      res == Ok(Content(r.base)[r.offset + i])
  {
    match r
    case FlatChars(a) => if 0 <= i < |a| then Ok(a[i]) else Err(IndexOutOfBounds)
    case FlatSeq(cs) => CS.Get(cs, i)
    case Substring(b, o, n) => if i >= n then Err(IndexOutOfBounds) else Get(b, o + i)
    case Reversed(b) => Get(b, Length(b) - i - 1)
    case Concat(left, right) =>
      if i >= Length(left) + Length(right) then Err(IndexOutOfBounds)
      else if i < Length(left) then Get(left, i)
      else Get(right, i - Length(left))
  }

  /**
   * The FlatCharArrayRope constructor: `length` may not exceed the array
   * (IllegalArgument), then `CharArray(length)` (NegativeArraySize), then
   * `System.arraycopy` (IndexOutOfBounds) into a fresh private array.
   */
  function NewFlatCharArray(chars: seq<char>, offset: int, length: int): (r: Result<Rope>)
    requires |chars| <= INT_MAX
    ensures r.Ok? <==> 0 <= offset && 0 <= length && offset + length <= |chars|
    ensures length > |chars| ==> r == Err(IllegalArgument)
    ensures length <= |chars| && length < 0 ==> r == Err(NegativeArraySize)
    ensures 0 <= length <= |chars| && (offset < 0 || offset + length > |chars|) ==> r == Err(IndexOutOfBounds)
    ensures r.Ok? ==> r.value.FlatChars? && Valid(r.value) && Content(r.value) == chars[offset..offset + length]
  {
    if length > |chars| then Err(IllegalArgument)
    else if length < 0 then Err(NegativeArraySize)
    else if offset < 0 || offset + length > |chars| then Err(IndexOutOfBounds)
    else Ok(FlatChars(chars[offset..offset + length]))
  }

  /** The SubstringRope constructor: a window that does not fit its flat base is refused. */
  function NewSubstring(base: Rope, offset: int, length: int): (r: Result<Rope>)
    requires IsFlat(base) && Valid(base)
    ensures r.Ok? <==> 0 <= length && 0 <= offset && offset + length <= Length(base)
    ensures r.Err? ==> r.error == IndexOutOfBounds
    ensures r.Ok? ==>
      r.value.Substring? && r.value.base == base && Valid(r.value) &&
      Content(r.value) == Content(base)[offset..offset + length]
  {
    if length < 0 || offset < 0 || offset + length > Length(base) then Err(IndexOutOfBounds)
    else Ok(Substring(base, offset, length))
  }

  /** A list of ropes, each valid (the pending subtrees of a traversal, the leaves of a rope). */
  predicate AllValid(rs: seq<Rope>) {
    forall k :: 0 <= k < |rs| ==> Valid(rs[k])
  }

  /** The characters of a list of ropes, first to last. */
  function Flatten(rs: seq<Rope>): seq<char>
    requires AllValid(rs)
  {
    if rs == [] then [] else Content(rs[0]) + Flatten(rs[1..])
  }

  /** The summed lengths of a list of ropes. */
  function TotalLength(rs: seq<Rope>): int {
    if rs == [] then 0 else Length(rs[0]) + TotalLength(rs[1..])
  }

  lemma {:induction false} FlattenAppend(a: seq<Rope>, b: seq<Rope>)
    requires AllValid(a) && AllValid(b)
    ensures AllValid(a + b) && Flatten(a + b) == Flatten(a) + Flatten(b)
  {
    if a != [] {
      assert (a + b)[1..] == a[1..] + b;
      FlattenAppend(a[1..], b);
    } else {
      assert a + b == b;
    }
  }

  lemma {:induction false} TotalLengthAppend(a: seq<Rope>, b: seq<Rope>)
    ensures TotalLength(a + b) == TotalLength(a) + TotalLength(b)
  {
    if a != [] {
      assert (a + b)[1..] == a[1..] + b;
      TotalLengthAppend(a[1..], b);
    } else {
      assert a + b == b;
    }
  }

  lemma {:induction false} FlattenLength(rs: seq<Rope>)
    requires AllValid(rs)
    ensures |Flatten(rs)| == TotalLength(rs)
  {
    if rs != [] {
      FlattenLength(rs[1..]);
    }
  }
}
