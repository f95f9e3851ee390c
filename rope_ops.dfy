/**
 * The structural operations every rope node implements for itself:
 * `reverse`, `subSequence`, `write` and `toString(offset, length)`, and the
 * choice of node that `iterator(start)` / `reverseIterator(start)` hand
 * the walk to. Both trees (Kotlin and Java) do the same here, except for
 * the ReverseRope range write, whose Kotlin check is modelled as written in
 * `Findings` and in its intended form here.
 */
module RopeOps {
  import opened JavaLang
  import opened Ropes
  import opened Concatenating
  import CS = CharSequences

  /**
   * `reverse()`: a flat rope or a substring view gets a ReverseRope, a
   * ReverseRope hands back what it wraps, and a concatenation node joins its
   * reversed children the other way round.
   */
  function Reverse(r: Rope): (y: Rope)
    requires Valid(r) || !r.Concat?
    ensures Length(y) == Length(r)
    ensures Valid(r) ==> Valid(y) && Content(y) == Rev(Content(r))
    ensures Valid(r) && Balanced(r) ==> Balanced(y)
    ensures !r.Concat? && !r.Reversed? ==> y == Reversed(r)
    decreases r
  {
    match r
    case Reversed(b) =>
      if Valid(r) then RevRev(Content(b)); b else b
    case Concat(left, right) =>
      var rr, rl := Reverse(right), Reverse(left);
      RevAppend(Content(left), Content(right));
      Concatenate(rr, rl).value
    case _ => Reversed(r)
  }

  /** Reversing twice gives the characters back, and a node that is no concatenation comes back itself. */
  lemma ReverseTwice(r: Rope)
    requires Valid(r)
    ensures Valid(Reverse(r)) && Content(Reverse(Reverse(r))) == Content(r)
    ensures !r.Concat? ==> Reverse(Reverse(r)) == r
  {
    RevRev(Content(r));
  }

  /**
   * `subSequence(start, end)`, node by node: a whole range gives back the
   * node itself; a flat rope copies a short range (under 16 characters
   * from an array, under 8 from a borrowed sequence, any length from a
   * `String`) and makes a substring view of a longer one; a substring view
   * narrows its window over the same base; a ReverseRope takes the mirrored
   * range of its base and reverses it; a concatenation node checks the range
   * (IllegalArgument) and descends into one child or joins the two parts.
   */
  function SubSequence(r: Rope, s: int, e: int): (res: Result<Rope>)
    requires Valid(r)
    ensures 0 <= s <= e <= Length(r) ==>
      res.Ok? && Valid(res.value) && Content(res.value) == Content(r)[s..e]
    ensures s == 0 && e == Length(r) ==> res == Ok(r)
    ensures r.Concat? && (s < 0 || e > Length(r)) ==> res == Err(IllegalArgument)
    ensures (IsFlat(r) || r.Substring?) && res.Ok? ==> IsFlat(res.value) || res.value.Substring?
    ensures 0 <= s <= e <= Length(r) && Balanced(r) ==> Balanced(res.value)
    decreases r, 2
  {
    match r
    case Reversed(_) => ReversedSubSequence(r, s, e)
    case Concat(_, _) => ConcatSubSequence(r, s, e)
    case _ => ViewSubSequence(r, s, e)
  }

  /** `subSequence` of a concatenation node. */
  function ConcatSubSequence(r: Rope, s: int, e: int): (res: Result<Rope>)
    requires r.Concat? && Valid(r)
    ensures 0 <= s <= e <= Length(r) ==>
      res.Ok? && Valid(res.value) && Content(res.value) == Content(r)[s..e]
    ensures s == 0 && e == Length(r) ==> res == Ok(r)
    ensures s < 0 || e > Length(r) ==> res == Err(IllegalArgument)
    ensures 0 <= s <= e <= Length(r) && Balanced(r) ==> Balanced(res.value)
    decreases r, 1
  {
    var left, right := r.left, r.right;
    var l := Length(left);
    LengthBounds(left);
    LengthBounds(right);
    BalancedChildren(r);
    if s < 0 || e > l + Length(right) then Err(IllegalArgument)
    else if s == 0 && e == l + Length(right) then Ok(r)
    else if e <= l then
      ConcatSlice(Content(left), Content(right), s, e);
      SubSequence(left, s, e)
    else if s >= l then
      ConcatSlice(Content(left), Content(right), s, e);
      SubSequence(right, s - l, e - l)
    else JoinedSubSequence(r, s, e)
  }

  /** A range that straddles the two children: the tail of the left one joined to the head of the right one. */
  function JoinedSubSequence(r: Rope, s: int, e: int): (res: Result<Rope>)
    requires r.Concat? && Valid(r) && 0 <= s < Length(r.left) < e <= Length(r)
    ensures res.Ok? && Valid(res.value) && Content(res.value) == Content(r)[s..e]
    ensures Balanced(r) ==> Balanced(res.value)
    decreases r, 0
  {
    var left, right := r.left, r.right;
    var l := Length(left);
    LengthBounds(right);
    BalancedChildren(r);
    match SubSequence(left, s, l)
    case Err(error) => Err(error)
    case Ok(a) =>
      match SubSequence(right, 0, e - l)
      case Err(error) => Err(error)
      case Ok(b) =>
        ConcatSlice(Content(left), Content(right), s, e);
        Concatenate(a, b)
  }

  /** A range of `a + b`: inside `a`, inside `b`, or a tail of `a` and a head of `b`. */
  lemma ConcatSlice(a: seq<char>, b: seq<char>, s: int, e: int)
    ensures 0 <= s <= e <= |a| ==> (a + b)[s..e] == a[s..e]
    ensures |a| <= s <= e <= |a| + |b| ==> (a + b)[s..e] == b[s - |a|..e - |a|]
    ensures 0 <= s <= |a| <= e <= |a| + |b| ==> (a + b)[s..e] == a[s..|a|] + b[0..e - |a|]
  {
    if 0 <= s <= |a| <= e <= |a| + |b| {
      assert (a + b)[s..e] == a[s..|a|] + b[0..e - |a|];
    }
  }

  /** `subSequence` of a ReverseRope: the mirrored range of its base, reversed. */
  function ReversedSubSequence(r: Rope, s: int, e: int): (res: Result<Rope>)
    requires r.Reversed? && Valid(r)
    ensures 0 <= s <= e <= Length(r) ==>
      res.Ok? && Valid(res.value) && Content(res.value) == Content(r)[s..e] && Depth(res.value) == 0
    ensures s == 0 && e == Length(r) ==> res == Ok(r)
  {
    var b := r.base;
    var n := Length(b);
    LeafDepth(r);
    if s == 0 && e == n then Ok(r)
    else
      match ViewSubSequence(b, n - e, n - s)
      case Err(error) => Err(error)
      case Ok(sub) =>
        ReversedSlice(r, s, e, sub);
        Ok(Reversed(sub))
  }

  /**
   * Reversing the mirrored range of a ReverseRope's base gives the range of
   * the ReverseRope; the range is a flat rope or a view, which `reverse()`
   * wraps in a new ReverseRope.
   */
  lemma ReversedSlice(r: Rope, s: int, e: int, sub: Rope)
    requires r.Reversed? && Valid(r) && (IsFlat(sub) || sub.Substring?)
    requires 0 <= s <= e <= Length(r) ==>
      Valid(sub) && Depth(sub) == 0 && Content(sub) == Content(r.base)[Length(r) - e..Length(r) - s]
    ensures Reverse(sub) == Reversed(sub)
    ensures 0 <= s <= e <= Length(r) ==>
      Valid(Reversed(sub)) && Content(Reversed(sub)) == Content(r)[s..e] && Depth(Reversed(sub)) == 0
  {
    if 0 <= s <= e <= Length(r) {
      MirroredSlice(Content(r.base), s, e, Content(sub));
    }
  }

  lemma MirroredSlice(c: seq<char>, s: int, e: int, t: seq<char>)
    requires 0 <= s <= e <= |c| && t == c[|c| - e..|c| - s]
    ensures Rev(t) == Rev(c)[s..e]
  {
    RevSlice(c, |c| - e, |c| - s);
  }

  /** `subSequence` of a flat rope or a substring view, the nodes a ReverseRope wraps. */
  function ViewSubSequence(r: Rope, s: int, e: int): (res: Result<Rope>)
    requires (IsFlat(r) || r.Substring?) && Valid(r)
    ensures 0 <= s <= e <= Length(r) ==>
      res.Ok? && Valid(res.value) && Content(res.value) == Content(r)[s..e] && Depth(res.value) == 0
    ensures s == 0 && e == Length(r) ==> res == Ok(r)
    ensures res.Ok? ==> IsFlat(res.value) || res.value.Substring?
  {
    if r.Substring? then SubstringSubSequence(r, s, e) else FlatSubSequence(r, s, e)
  }

  /** `subSequence` of a flat rope. */
  function FlatSubSequence(r: Rope, s: int, e: int): (res: Result<Rope>)
    requires IsFlat(r) && Valid(r)
    ensures 0 <= s <= e <= Length(r) ==>
      res.Ok? && Valid(res.value) && Content(res.value) == Content(r)[s..e] && Depth(res.value) == 0
    ensures s == 0 && e == Length(r) ==> res == Ok(r)
    ensures res.Ok? ==> IsFlat(res.value) || res.value.Substring?
  {
    match r
    case FlatChars(a) =>
      if s == 0 && e == |a| then Ok(r)
      else if e - s < 16 then NewFlatCharArray(a, s, e - s)
      else NewSubstring(r, s, e - s)
    case FlatSeq(cs) =>
      if s == 0 && e == CS.Length(cs) then Ok(r)
      else if e - s < 8 || cs.JString? then
        var sub :- CS.SubSequence(cs, s, e);
        Ok(FlatSeq(sub))
      else NewSubstring(r, s, e - s)
  }

  /** `subSequence` of a substring view: a narrower window over the same base. */
  function SubstringSubSequence(r: Rope, s: int, e: int): (res: Result<Rope>)
    requires r.Substring? && Valid(r)
    ensures 0 <= s <= e <= Length(r) ==>
      res.Ok? && Valid(res.value) && Content(res.value) == Content(r)[s..e] && Depth(res.value) == 0
    ensures s == 0 && e == Length(r) ==> res == Ok(r)
    ensures res.Ok? ==> res.value.Substring?
  {
    if s == 0 && e == r.len then Ok(r)
    else
      var res := NewSubstring(r.base, r.offset + s, e - s);
      if 0 <= s <= e <= r.len then
        assert Content(r)[s..e] == Content(r.base)[r.offset + s..r.offset + e];
        res
      else res
  }

  /**
   * What `write(out, offset, length)` sends to the writer, or the exception
   * it ends with. A char array goes through `Writer.write(char[], off, len)`
   * (IndexOutOfBounds unless the range lies in the array); a borrowed
   * sequence checks `offset` and `offset + length` and then writes a
   * `String` range with `substring` (which refuses a negative length) and
   * any other sequence character by character; a substring view shifts the
   * offset into its base without checking its own window; a ReverseRope
   * checks the range against its length and writes character by character;
   * a concatenation node splits the range between its children.
   */
  function Written(r: Rope, off: int, len: int): Result<seq<char>>
    requires Valid(r)
    decreases r
  {
    match r
    case FlatChars(a) =>
      if off < 0 || len < 0 || off + len > |a| then Err(IndexOutOfBounds) else Ok(a[off..off + len])
    case FlatSeq(cs) =>
      if off < 0 || off + len > CS.Length(cs) then Err(IndexOutOfBounds)
      else if cs.JString? then
        if len < 0 then Err(IndexOutOfBounds) else Ok(cs.s[off..off + len])
      else if len < 0 then Ok([])
      else Ok(CS.Chars(cs)[off..off + len])
    case Substring(b, o, _) => Written(b, o + off, len)
    case Reversed(b) =>
      if off < 0 || off + len > Length(b) then Err(IndexOutOfBounds)
      else if len < 0 then Ok([])
      else Ok(Content(r)[off..off + len])
    case Concat(left, right) =>
      var l := Length(left);
      if off + len <= l then Written(left, off, len)
      else if off >= l then Written(right, off - l, len)
      else
        var a :- Written(left, off, l - off);
        var b :- Written(right, 0, len - (l - off));
        Ok(a + b)
  }

  /** A range inside the rope is written exactly, whatever the shape of the tree. */
  lemma {:induction false} WrittenInRange(r: Rope, off: int, len: int)
    requires Valid(r) && 0 <= off && 0 <= len && off + len <= Length(r)
    ensures Written(r, off, len) == Ok(Content(r)[off..off + len])
    decreases r, 1
  {
    if r.Substring? {
      var b, o := r.base, r.offset;
      WrittenInRange(b, o + off, len);
      assert Content(r) == Content(b)[o..o + r.len];
      assert Content(r)[off..off + len] == Content(b)[o + off..o + off + len];
    } else if r.Concat? {
      ConcatWrittenInRange(r, off, len);
    } else {
      LeafWrittenInRange(r, off, len);
    }
  }

  lemma LeafWrittenInRange(r: Rope, off: int, len: int)
    requires Valid(r) && (IsFlat(r) || r.Reversed?) && 0 <= off && 0 <= len && off + len <= Length(r)
    ensures Written(r, off, len) == Ok(Content(r)[off..off + len])
  {
  }

  lemma {:induction false} ConcatWrittenInRange(r: Rope, off: int, len: int)
    requires Valid(r) && r.Concat? && 0 <= off && 0 <= len && off + len <= Length(r)
    ensures Written(r, off, len) == Ok(Content(r)[off..off + len])
    decreases r, 0
  {
    var left, right := r.left, r.right;
    var l := Length(left);
    ConcatSlice(Content(left), Content(right), off, off + len);
    if off + len <= l {
      WrittenInRange(left, off, len);
    } else if off >= l {
      WrittenInRange(right, off - l, len);
    } else {
      WrittenInRange(left, off, l - off);
      WrittenInRange(right, 0, len - (l - off));
    }
  }

  /**
   * The flat leaves and the ReverseRope refuse a range that starts before
   * them or ends after them; a negative length is refused by a char array
   * and a `String` and writes nothing elsewhere.
   */
  lemma LeafWriteErrors(r: Rope, off: int, len: int)
    requires Valid(r) && (IsFlat(r) || r.Reversed?)
    ensures off < 0 || off + len > Length(r) ==> Written(r, off, len) == Err(IndexOutOfBounds)
    ensures 0 <= off && off + len <= Length(r) && len < 0 ==>
      Written(r, off, len) == (if r.FlatChars? || (r.FlatSeq? && r.cs.JString?) then Err(IndexOutOfBounds) else Ok([]))
  {
  }

  /**
   * A substring view does not bound a range write by its window: any range
   * of the base, counted from the window's start, is written.
   */
  lemma SubstringWritePastWindow(b: Rope, o: int, n: int, off: int, len: int)
    requires Valid(Substring(b, o, n))
    requires 0 <= o + off && 0 <= len && o + off + len <= Length(b)
    ensures Written(Substring(b, o, n), off, len) == Ok(Content(b)[o + off..o + off + len])
  {
    WrittenInRange(b, o + off, len);
  }

  /** `write(out, offset, length)`; the character-by-character cases are loops. */
  method Write(r: Rope, off: int, len: int) returns (out: Result<seq<char>>)
    requires Valid(r)
    ensures out == Written(r, off, len)
    decreases r
  {
    match r
    case FlatChars(a) => {
      if off < 0 || len < 0 || off + len > |a| {
        return Err(IndexOutOfBounds);
      }
      return Ok(a[off..off + len]);
    }
    case FlatSeq(cs) => {
      if off < 0 || off + len > CS.Length(cs) {
        return Err(IndexOutOfBounds);
      }
      if cs.JString? {
        if len < 0 {
          return Err(IndexOutOfBounds);
        }
        return Ok(cs.s[off..off + len]);
      }
      var written := EachOfSequence(cs, off, len);
      return Ok(written);
    }
    case Substring(b, o, _) => {
      out := Write(b, o + off, len);
    }
    case Reversed(b) => {
      if off < 0 || off + len > Length(b) {
        return Err(IndexOutOfBounds);
      }
      var written := EachOfRope(r, off, len);
      return Ok(written);
    }
    case Concat(left, right) => {
      var l := Length(left);
      if off + len <= l {
        out := Write(left, off, len);
      } else if off >= l {
        out := Write(right, off - l, len);
      } else {
        var a := Write(left, off, l - off);
        if a.Err? {
          return Err(a.error);
        }
        var b := Write(right, 0, len - (l - off));
        if b.Err? {
          return Err(b.error);
        }
        return Ok(a.value + b.value);
      }
    }
  }

  /** The character-by-character write of a borrowed sequence: `get(j)` for each `j` of the range. */
  method EachOfSequence(cs: CS.CharSeq, off: int, len: int) returns (written: seq<char>)
    requires CS.Valid(cs) && 0 <= off && off + len <= CS.Length(cs)
    ensures written == if len < 0 then [] else CS.Chars(cs)[off..off + len]
  {
    written := [];
    var j := off;
    while j < off + len
      invariant off <= j && (len >= 0 ==> j <= off + len)
      invariant len >= 0 ==> written == CS.Chars(cs)[off..j]
      invariant len < 0 ==> written == []
      decreases off + len - j
    {
      var c := CS.Get(cs, j);
      written := written + [c.value];
      j := j + 1;
    }
  }

  /** The character-by-character write of a ReverseRope: `get(j)` for each `j` of the range. */
  method EachOfRope(r: Rope, off: int, len: int) returns (written: seq<char>)
    requires Valid(r) && 0 <= off && off + len <= Length(r)
    ensures written == if len < 0 then [] else Content(r)[off..off + len]
  {
    written := [];
    var j := off;
    while j < off + len
      invariant off <= j && (len >= 0 ==> j <= off + len)
      invariant len >= 0 ==> written == Content(r)[off..j]
      invariant len < 0 ==> written == []
      decreases off + len - j
    {
      var c := Get(r, j);
      written := written + [c.value];
      j := j + 1;
    }
  }

  /**
   * `write(out)`, which is also how `toString()` is built for a substring
   * view, a ReverseRope and a concatenation node: every character, in order.
   */
  method WriteAll(r: Rope) returns (out: Result<seq<char>>)
    requires Valid(r)
    ensures out == Ok(Content(r))
    decreases r
  {
    LengthBounds(r);
    match r
    case Substring(b, o, n) => {
      WrittenInRange(b, o, n);
      assert Content(r) == Content(b)[o..o + n];
      out := Write(b, o, n);
    }
    case Concat(left, right) => {
      var a := WriteAll(left);
      var b := WriteAll(right);
      out := Ok(a.value + b.value);
    }
    case _ => {
      WrittenInRange(r, 0, Length(r));
      assert Content(r)[0..Length(r)] == Content(r);
      out := Write(r, 0, Length(r));
    }
  }

  /**
   * `toString(offset, length)` of a flat rope: `String(sequence, offset,
   * length)` for a char array, `subSequence(offset, offset + length)` then
   * `toString()` for a borrowed sequence. A repeated character sequence
   * checks nothing but the sign of the length.
   */
  function FlatToString(r: Rope, off: int, len: int): (res: Result<seq<char>>)
    requires IsFlat(r) && Valid(r)
    ensures 0 <= off && 0 <= len && off + len <= Length(r) ==> res == Ok(Content(r)[off..off + len])
    ensures !(r.FlatSeq? && r.cs.Repeated?) ==>
      (res.Ok? <==> 0 <= off && 0 <= len && off + len <= Length(r)) && (res.Err? ==> res.error == IndexOutOfBounds)
    ensures r.FlatSeq? && r.cs.Repeated? ==>
      (res.Ok? <==> 0 <= len) && (res.Err? ==> res.error == NegativeArraySize) &&
      (res.Ok? ==> |res.value| == len && forall k :: 0 <= k < len ==> res.value[k] == r.cs.character)
  {
    match r
    case FlatChars(a) =>
      if off < 0 || len < 0 || off + len > |a| then Err(IndexOutOfBounds) else Ok(a[off..off + len])
    case FlatSeq(cs) =>
      var sub :- CS.SubSequence(cs, off, off + len);
      CS.ToString(sub)
  }

  /** `toString()` of a substring view is its base's `toString(offset, length)`: its characters. */
  lemma SubstringToString(b: Rope, o: int, n: int)
    requires Valid(Substring(b, o, n))
    ensures FlatToString(b, o, n) == Ok(Content(Substring(b, o, n)))
  {
  }

  /**
   * The node `iterator(start)` builds its iterator on, and the start within
   * it: a concatenation node whose left child ends at or before `start`
   * hands the walk to its right child; any other node iterates itself. The
   * characters still to come are the same either way.
   */
  function IteratorTarget(r: Rope, start: int): (res: Result<(Rope, int)>)
    requires Valid(r)
    ensures res.Ok? <==> 0 <= start <= Length(r)
    ensures res.Err? ==> res.error == IndexOutOfBounds
    ensures res.Ok? ==>
      var (node, st) := res.value;
      Valid(node) && 0 <= st <= Length(node) && Content(node)[st..] == Content(r)[start..] &&
      (node.Concat? ==> st < Length(node.left)) && Length(node) - st == Length(r) - start && st <= start
    ensures !r.Concat? && 0 <= start <= Length(r) ==> res == Ok((r, start))
    decreases r
  {
    if start < 0 || start > Length(r) then Err(IndexOutOfBounds)
    else if r.Concat? && start >= Length(r.left) then
      IteratorTarget(r.right, start - Length(r.left))
    else Ok((r, start))
  }

  /**
   * The node `reverseIterator(start)` builds its iterator on: a
   * concatenation node whose right child holds no more than `start`
   * characters hands the walk to its left child. `start` counts from the
   * end, and the characters still to come, read backwards, are the same.
   */
  function ReverseIteratorTarget(r: Rope, start: int): (res: Result<(Rope, int)>)
    requires Valid(r)
    ensures res.Ok? <==> 0 <= start <= Length(r)
    ensures res.Err? ==> res.error == IndexOutOfBounds
    ensures res.Ok? ==>
      var (node, st) := res.value;
      Valid(node) && 0 <= st <= Length(node) &&
      Content(node)[..Length(node) - st] == Content(r)[..Length(r) - start] &&
      (node.Concat? ==> st < Length(node.right))
    ensures !r.Concat? && 0 <= start <= Length(r) ==> res == Ok((r, start))
    decreases r
  {
    if start < 0 || start > Length(r) then Err(IndexOutOfBounds)
    else if r.Concat? && start >= Length(r.right) then
      assert Content(r)[..Length(r) - start] == Content(r.left)[..Length(r.left) - (start - Length(r.right))];
      ReverseIteratorTarget(r.left, start - Length(r.right))
    else Ok((r, start))
  }

  /**
   * Whether a walk that `iterator(start)` gives fails once it has read every
   * remaining character: it is the concatenation walk of
   * ConcatenationRopeIteratorImpl, and the rope ends in an empty leaf. That
   * leaf is still on the walk's stack after the last character, so
   * `hasNext()` holds and the `next()` that follows throws IllegalArgument
   * (`ConcatIterators.ConcatIterator.HasNext` states this of the walk). It
   * is what every loop driven by `hasNext()` that reads to the end runs into.
   */
  predicate OverrunsEnd(r: Rope, start: int)
    requires Valid(r)
  {
    0 <= start <= Length(r) && WalksConcat(r, start) && Length(RightmostLeaf(r)) == 0
  }

  /** The same for the reverse walk that `reverseIterator(start)` gives, when the rope begins with an empty leaf. */
  predicate OverrunsStart(r: Rope, start: int)
    requires Valid(r)
  {
    0 <= start <= Length(r) && WalksConcatBackwards(r, start) && Length(LeftmostLeaf(r)) == 0
  }

  /** Whether the node `iterator(start)` hands the walk to is a concatenation node (`WalksConcatIsTarget`). */
  predicate WalksConcat(r: Rope, start: int)
    decreases r
  {
    r.Concat? && (start >= Length(r.left) ==> WalksConcat(r.right, start - Length(r.left)))
  }

  /** Whether the node `reverseIterator(start)` hands the walk to is a concatenation node. */
  predicate WalksConcatBackwards(r: Rope, start: int)
    decreases r
  {
    r.Concat? && (start >= Length(r.right) ==> WalksConcatBackwards(r.left, start - Length(r.right)))
  }

  /** `WalksConcat` follows the dispatch of `IteratorTarget`, and its mirror that of `ReverseIteratorTarget`. */
  lemma {:induction false} WalksConcatIsTarget(r: Rope, start: int)
    requires Valid(r) && 0 <= start <= Length(r)
    ensures WalksConcat(r, start) <==> IteratorTarget(r, start).value.0.Concat?
    ensures WalksConcatBackwards(r, start) <==> ReverseIteratorTarget(r, start).value.0.Concat?
    decreases r
  {
    if r.Concat? {
      if start >= Length(r.left) {
        WalksConcatIsTarget(r.right, start - Length(r.left));
      }
      if start >= Length(r.right) {
        WalksConcatIsTarget(r.left, start - Length(r.right));
      }
    }
  }

  /** The node `iterator(start)` walks lies on the rope's right spine: it ends in the rope's last leaf. */
  lemma {:induction false} TargetEndsWithRope(r: Rope, start: int)
    requires Valid(r) && 0 <= start <= Length(r)
    ensures RightmostLeaf(IteratorTarget(r, start).value.0) == RightmostLeaf(r)
    decreases r
  {
    if r.Concat? && start >= Length(r.left) {
      TargetEndsWithRope(r.right, start - Length(r.left));
    }
  }

  /** The node `reverseIterator(start)` walks lies on the rope's left spine: it begins with the rope's first leaf. */
  lemma {:induction false} ReverseTargetBeginsWithRope(r: Rope, start: int)
    requires Valid(r) && 0 <= start <= Length(r)
    ensures LeftmostLeaf(ReverseIteratorTarget(r, start).value.0) == LeftmostLeaf(r)
    decreases r
  {
    if r.Concat? && start >= Length(r.right) {
      ReverseTargetBeginsWithRope(r.left, start - Length(r.right));
    }
  }

  /** A walk handed to a concatenation node, and so an overrun, needs a character still to read. */
  lemma {:induction false} OverrunNeedsCharacters(r: Rope, start: int)
    requires Valid(r)
    ensures WalksConcat(r, start) ==> r.Concat? && start < Length(r)
    ensures WalksConcatBackwards(r, start) ==> r.Concat? && start < Length(r)
    decreases r
  {
    if r.Concat? {
      LengthBounds(r.left);
      LengthBounds(r.right);
      OverrunNeedsCharacters(r.right, start - Length(r.left));
      OverrunNeedsCharacters(r.left, start - Length(r.right));
    }
  }

  /** `Concat("ab", "")` ends in an empty leaf: its forward walk overruns, its reverse walk does not. */
  lemma TrailingEmptyLeafOverruns()
    ensures var r := Concat(FlatString("ab"), FlatString(""));
      Valid(r) && OverrunsEnd(r, 0) && OverrunsEnd(r, 1) && !OverrunsEnd(r, 2) && !OverrunsStart(r, 0)
  {
  }
}
