/**
 * The searches of `AbstractRope`: `indexOf(ch)`, `indexOf(ch, fromIndex)`,
 * `startsWith`, `endsWith`, and the Boyer-Moore-Horspool
 * `indexOf(sequence, fromIndex)` with its bad-character table indexed by
 * the low eight bits of a character. The iterator loops of the source read
 * the rope's characters in order and are modelled as loops over them.
 */
module Searching {
  import opened JavaLang
  import opened Ropes
  import opened RopeOps
  import opened SequentialAccess

  /** `p` stands in `t` at `k`. */
  predicate Matches(t: seq<char>, p: seq<char>, k: int) {
    0 <= k && k + |p| <= |t| && t[k..k + |p|] == p
  }

  /** The first index at or after `from` that holds `ch`, or -1. */
  function FirstIndexOf(t: seq<char>, ch: char, from: nat): (k: int)
    ensures k == -1 || (from <= k < |t| && t[k] == ch)
    ensures forall i :: from <= i < |t| && (k == -1 || i < k) ==> t[i] != ch
    decreases |t| - from
  {
    if from >= |t| then -1 else if t[from] == ch then from else FirstIndexOf(t, ch, from + 1)
  }

  /** The first index at or after `from` where `p` stands, or -1. */
  function FirstOccurrence(t: seq<char>, p: seq<char>, from: nat): (k: int)
    ensures k == -1 || (from <= k && Matches(t, p, k))
    ensures forall i :: from <= i && (k == -1 || i < k) ==> !Matches(t, p, i)
    decreases |t| - from
  {
    if from + |p| > |t| then -1
    else if t[from..from + |p|] == p then from
    else FirstOccurrence(t, p, from + 1)
  }

  /** Looking for one character is looking for the one-character sequence. */
  lemma {:induction false} FirstIndexOfIsOccurrence(t: seq<char>, ch: char, from: nat)
    ensures FirstIndexOf(t, ch, from) == FirstOccurrence(t, [ch], from)
    decreases |t| - from
  {
    if from < |t| {
      assert t[from..from + 1] == [t[from]];
      FirstIndexOfIsOccurrence(t, ch, from + 1);
    }
  }

  /**
   * `indexOf(ch, fromIndex)` of AbstractRope, and its FlatCharArrayRope
   * override, which does the same over its array: IndexOutOfBounds unless
   * `0 <= fromIndex < length`, else the first index from `fromIndex` on
   * that holds `ch`, or -1. The loop is driven by the walk's `hasNext()`:
   * when `ch` does not occur and the walk overruns the end, the last
   * `next()` throws IllegalArgument instead.
   */
  method IndexOfChar(r: Rope, ch: char, from: int) returns (res: Result<int>)
    requires Valid(r)
    ensures !(0 <= from < Length(r)) ==> res == Err(IndexOutOfBounds)
    ensures 0 <= from < Length(r) ==>
      res == if FirstIndexOf(Content(r), ch, from) == -1 && OverrunsEnd(r, from) then Err(IllegalArgument)
             else Ok(FirstIndexOf(Content(r), ch, from))
  {
    if from < 0 || from >= Length(r) {
      return Err(IndexOutOfBounds);
    }
    var t := Content(r);
    var index := from - 1;
    while index + 1 < |t|
      invariant from - 1 <= index < |t|
      invariant FirstIndexOf(t, ch, from) == FirstIndexOf(t, ch, index + 1)
      decreases |t| - index
    {
      index := index + 1;
      if t[index] == ch {
        return Ok(index);
      }
    }
    if OverrunsEnd(r, from) {
      return Err(IllegalArgument);
    }
    return Ok(-1);
  }

  /**
   * The Java `indexOf(ch)`: the first index that holds `ch`, or -1; an
   * empty rope gives -1. Its `for` loop over the rope's walk fails like
   * `indexOf(ch, fromIndex)` when `ch` does not occur and the walk overruns.
   */
  method IndexOfCharFromStart(r: Rope, ch: char) returns (res: Result<int>)
    requires Valid(r)
    ensures res == if FirstIndexOf(Content(r), ch, 0) == -1 && OverrunsEnd(r, 0) then Err(IllegalArgument)
                   else Ok(FirstIndexOf(Content(r), ch, 0))
  {
    var t := Content(r);
    var k := -1;
    while k + 1 < |t|
      invariant -1 <= k < |t|
      invariant FirstIndexOf(t, ch, 0) == FirstIndexOf(t, ch, k + 1)
      decreases |t| - k
    {
      k := k + 1;
      if t[k] == ch {
        return Ok(k);
      }
    }
    if OverrunsEnd(r, 0) {
      return Err(IllegalArgument);
    }
    return Ok(-1);
  }

  /**
   * `startsWith(prefix, offset)`: IndexOutOfBounds for an offset outside
   * `[0, length]`, false when the prefix would run past the end, else
   * whether the characters from `offset` on begin with the prefix.
   */
  method StartsWith(r: Rope, prefix: seq<char>, offset: int) returns (res: Result<bool>)
    requires Valid(r)
    ensures res == if 0 <= offset <= Length(r) then Ok(Matches(Content(r), prefix, offset)) else Err(IndexOutOfBounds)
  {
    if offset < 0 || offset > Length(r) {
      return Err(IndexOutOfBounds);
    }
    var t := Content(r);
    if offset + |prefix| > |t| {
      return Ok(false);
    }
    var x := 0;
    while offset + x < |t| && x < |prefix|
      invariant 0 <= x <= |prefix|
      invariant t[offset..offset + x] == prefix[..x]
    {
      if t[offset + x] != prefix[x] {
        MismatchAt(t, prefix, offset, x);
        return Ok(false);
      }
      AgreeOneMore(t, prefix, offset, x);
      x := x + 1;
    }
    PrefixMatch(t, prefix, offset, x);
    return Ok(true);
  }

  /**
   * `endsWith(suffix, offset)` = `startsWith(suffix, length - suffix.length
   * - offset)`: true when the suffix ends `offset` characters before the
   * end; a suffix longer than what precedes that point gives a negative
   * start and so IndexOutOfBounds rather than false.
   */
  method EndsWith(r: Rope, suffix: seq<char>, offset: int) returns (res: Result<bool>)
    requires Valid(r)
    ensures var start := Length(r) - |suffix| - offset;
      res == if 0 <= start <= Length(r) then Ok(Matches(Content(r), suffix, start)) else Err(IndexOutOfBounds)
    ensures 0 <= offset && |suffix| + offset <= Length(r) ==>
      res == Ok(Content(r)[Length(r) - offset - |suffix|..Length(r) - offset] == suffix)
  {
    res := StartsWith(r, suffix, Length(r) - |suffix| - offset);
  }

  /** `c & 0xFF`: the index of a character's entry in the bad-character table. */
  function Low8(c: char): (l: int)
    ensures 0 <= l < 256
  {
    (c as int) % 256
  }

  /**
   * The bad-character shift for the low byte `l` once the first `n`
   * characters of the needle have been entered: the needle's length,
   * lowered to `|p| - 1 - j` by every `j < n` whose character has that low
   * byte.
   */
  function Shift(p: seq<char>, l: int, n: nat): (s: int)
    requires n < |p|
    ensures 1 <= s <= |p|
    ensures forall j :: 0 <= j < n && Low8(p[j]) == l ==> s <= |p| - 1 - j
  {
    if n == 0 then |p|
    else
      var prev := Shift(p, l, n - 1);
      if Low8(p[n - 1]) == l && |p| - n < prev then |p| - n else prev
  }

  /**
   * The shift skips no occurrence: when the window ending at `j` has been
   * looked at, no window ending after `j` and before `j + s` matches, `s`
   * being the shift for the low byte of the character at `j`. Characters
   * that share a low byte only make the shift smaller.
   */
  lemma NoMatchSkipped(t: seq<char>, p: seq<char>, j: int)
    requires 2 <= |p| && |p| - 1 <= j < |t|
    ensures forall k :: j - |p| + 1 < k < j - |p| + 1 + Shift(p, Low8(t[j]), |p| - 1) ==> !Matches(t, p, k)
  {
    forall k | j - |p| + 1 < k < j - |p| + 1 + Shift(p, Low8(t[j]), |p| - 1)
      ensures !Matches(t, p, k)
    {
      if k + |p| <= |t| {
        assert t[k..k + |p|][j - k] == t[j];
      }
    }
  }

  /** A concatenation node can serve `getForSequentialAccess()`; every other node is its own view. */
  predicate HasSequentialView(r: Rope)
    requires Valid(r)
  {
    LengthBounds(r);
    !r.Concat? || IteratorTarget(r, 0).value.0.Concat?
  }

  /**
   * `me[x]`: through the sequential-access view of a concatenation node,
   * or the node's own `get` for any other node. For every index short of
   * the end the two agree.
   */
  method ReadAt(r: Rope, view: Adapter?, x: int) returns (c: Result<char>)
    requires Valid(r) && x < Length(r)
    requires view != null ==> view.Valid() && view.rope == r
    modifies if view == null then {} else {view.walk}
    ensures view != null ==> view.Valid()
    ensures c == Ropes.Get(r, x)
  {
    if view == null {
      c := Ropes.Get(r, x);
    } else {
      c := view.Get(x);
    }
  }

  /**
   * `indexOf(sequence, fromIndex)`, Boyer-Moore-Horspool. A concatenation
   * node first builds its sequential-access view, which fails with
   * ClassCast when `iterator(0)` does not give a concatenation walk. An
   * empty needle gives -1; a one-character needle is `indexOf(ch,
   * fromIndex)`; a longer one, searched for from a non-negative
   * `fromIndex`, gives its first occurrence from there, or -1.
   */
  method IndexOfSequence(r: Rope, p: seq<char>, from: int) returns (res: Result<int>)
    requires Valid(r)
    ensures !HasSequentialView(r) ==> res == Err(ClassCast)
    ensures HasSequentialView(r) && |p| == 0 ==> res == Ok(-1)
    ensures HasSequentialView(r) && |p| == 1 && !(0 <= from < Length(r)) ==> res == Err(IndexOutOfBounds)
    ensures HasSequentialView(r) && |p| == 1 && 0 <= from < Length(r) ==>
      res == if FirstIndexOf(Content(r), p[0], from) == -1 && OverrunsEnd(r, from) then Err(IllegalArgument)
             else Ok(FirstIndexOf(Content(r), p[0], from))
    ensures HasSequentialView(r) && 2 <= |p| && 0 <= from ==> res == Ok(FirstOccurrence(Content(r), p, from))
  {
    LengthBounds(r);
    var view: Adapter? := null;
    if r.Concat? {
      var v := GetForSequentialAccess(r);
      if v.Err? {
        return Err(v.error);
      }
      view := v.value;
    }
    var m := |p|;
    if m == 0 {
      return Ok(-1);
    }
    if m == 1 {
      res := IndexOfChar(r, p[0], from);
      return;
    }
    var bcs := BadCharacterTable(p);
    res := Horspool(r, view, p, from, bcs);
  }

  /**
   * The outer loop: windows are compared from `fromIndex` on, and after a
   * mismatch the window moves on by the table's shift for the character
   * under its last position, until a window matches or runs past the end.
   */
  method Horspool(r: Rope, view: Adapter?, p: seq<char>, from: int, bcs: array<int>) returns (res: Result<int>)
    requires Valid(r) && 2 <= |p| && bcs.Length == 256
    requires forall l :: 0 <= l < 256 ==> bcs[l] == Shift(p, l, |p| - 1)
    requires view != null ==> view.Valid() && view.rope == r
    modifies if view == null then {} else {view.walk}
    ensures view != null ==> view.Valid()
    ensures 0 <= from ==> res == Ok(FirstOccurrence(Content(r), p, from))
  {
    var m := |p|;
    ghost var t := Content(r);
    var j := from + m - 1;
    while j < Length(r)
      invariant from + m - 1 <= j
      invariant view != null ==> view.Valid()
      invariant 0 <= from ==> forall k :: from <= k && k + m - 1 < j ==> !Matches(t, p, k)
      decreases Length(r) - j
    {
      var w := CompareWindow(r, view, p, j);
      match w {
        case Err(error) => return Err(error);
        case Ok(matched) =>
          if matched {
            if 0 <= from {
              FirstOccurrenceFound(t, p, from, j - (m - 1));
            }
            return Ok(j - (m - 1));
          }
      }
      var c := ReadAt(r, view, j);
      match c {
        case Err(error) => return Err(error);
        case Ok(e) =>
          var shift := bcs[Low8(e)];
          if 0 <= from {
            assert e == t[j];
            SkipAhead(t, p, from, j, shift);
          }
          j := j + shift;
      }
    }
    if 0 <= from {
      FirstOccurrenceFound(t, p, from, -1);
    }
    return Ok(-1);
  }

  /** The windows a mismatch at `j` lets the search pass over hold no occurrence either. */
  lemma SkipAhead(t: seq<char>, p: seq<char>, from: int, j: int, shift: int)
    requires 0 <= from && 2 <= |p| && from + |p| - 1 <= j < |t|
    requires forall k :: from <= k && k + |p| - 1 < j ==> !Matches(t, p, k)
    requires !Matches(t, p, j - (|p| - 1)) && shift == Shift(p, Low8(t[j]), |p| - 1)
    ensures forall k :: from <= k && k + |p| - 1 < j + shift ==> !Matches(t, p, k)
  {
    NoMatchSkipped(t, p, j);
  }

  /** One more equal character extends the agreement of `t` from `k` with the start of `p`. */
  lemma AgreeOneMore(t: seq<char>, p: seq<char>, k: int, x: int)
    requires 0 <= k && k + x < |t| && 0 <= x < |p| && t[k..k + x] == p[..x] && t[k + x] == p[x]
    ensures t[k..k + x + 1] == p[..x + 1]
  {
    assert t[k..k + x + 1] == t[k..k + x] + [t[k + x]];
    assert p[..x + 1] == p[..x] + [p[x]];
  }

  /** Agreement over the whole needle is an occurrence. */
  lemma PrefixMatch(t: seq<char>, p: seq<char>, k: int, x: int)
    requires 0 <= k && k + |p| <= |t| && x == |p| && t[k..k + x] == p[..x]
    ensures Matches(t, p, k)
  {
    assert p[..x] == p;
  }

  /** One differing character rules a window out. */
  lemma MismatchAt(t: seq<char>, p: seq<char>, k: int, y: int)
    requires 0 <= k && k + |p| <= |t| && 0 <= y < |p| && t[k + y] != p[y]
    ensures !Matches(t, p, k)
  {
    assert t[k..k + |p|][y] == t[k + y];
  }

  /** The window at `k` agrees with the needle after position `y`. */
  predicate AgreesAfter(t: seq<char>, p: seq<char>, k: nat, y: int)
    requires k + |p| <= |t|
  {
    forall i :: y < i < |p| && 0 <= i ==> t[k + i] == p[i]
  }

  /** A window whose every character agrees with the needle matches. */
  lemma MatchAt(t: seq<char>, p: seq<char>, k: int)
    requires 0 <= k && k + |p| <= |t| && 1 <= |p|
    requires t[k] == p[0] && AgreesAfter(t, p, k, 0)
    ensures Matches(t, p, k)
  {
    assert t[k..k + |p|] == p;
  }

  /** The first occurrence is the one that matches with none before it. */
  lemma FirstOccurrenceFound(t: seq<char>, p: seq<char>, from: nat, k: int)
    requires k == -1 || (from <= k && Matches(t, p, k))
    requires forall i :: from <= i && (k == -1 || i < k) ==> !Matches(t, p, i)
    ensures FirstOccurrence(t, p, from) == k
  {
  }

  /** `Arrays.fill(bcs, length)` and the preprocessing loop: the bad-character table of the needle. */
  method BadCharacterTable(p: seq<char>) returns (bcs: array<int>)
    requires 2 <= |p|
    ensures fresh(bcs) && bcs.Length == 256
    ensures forall l :: 0 <= l < 256 ==> bcs[l] == Shift(p, l, |p| - 1)
  {
    var m := |p|;
    bcs := new int[256](_ => m);
    var i := 0;
    while i < m - 1
      invariant 0 <= i <= m - 1
      invariant forall l :: 0 <= l < 256 ==> bcs[l] == Shift(p, l, i)
    {
      var l := Low8(p[i]);
      bcs[l] := if m - i - 1 < bcs[l] then m - i - 1 else bcs[l];
      i := i + 1;
    }
  }

  /**
   * The inner loop: the window ending at `j` compared with the needle from
   * the right. Over a window inside the rope it answers whether the needle
   * stands there; a window that begins before the rope reads what `get`
   * gives at negative indices.
   */
  method CompareWindow(r: Rope, view: Adapter?, p: seq<char>, j: int) returns (res: Result<bool>)
    requires Valid(r) && 2 <= |p| && j < Length(r)
    requires view != null ==> view.Valid() && view.rope == r
    modifies if view == null then {} else {view.walk}
    ensures view != null ==> view.Valid()
    ensures 0 <= j - |p| + 1 ==> res == Ok(Matches(Content(r), p, j - |p| + 1))
  {
    var m := |p|;
    ghost var t := Content(r);
    var x, y := j, m - 1;
    while true
      invariant 0 <= y <= m - 1 && x == j - (m - 1 - y)
      invariant view != null ==> view.Valid()
      invariant 0 <= j - m + 1 ==> AgreesAfter(t, p, j - m + 1, y)
      decreases y
    {
      var read := ReadAt(r, view, x);
      match read {
        case Err(error) => return Err(error);
        case Ok(c) =>
          if 0 <= j - m + 1 {
            WindowStep(t, p, x - y, y, c);
          }
          if p[y] != c {
            return Ok(false);
          }
          if y == 0 {
            return Ok(true);
          }
      }
      x, y := x - 1, y - 1;
    }
  }

  /**
   * One comparison of the inner loop, the needle's characters after `y`
   * agreeing with the window at `k`: a differing character rules the window
   * out, an agreeing one extends the agreement, down to an occurrence.
   */
  lemma WindowStep(t: seq<char>, p: seq<char>, k: nat, y: int, c: char)
    requires k + |p| <= |t| && 0 <= y < |p| && AgreesAfter(t, p, k, y) && c == t[k + y]
    ensures p[y] != c ==> !Matches(t, p, k)
    ensures p[y] == c && y == 0 ==> Matches(t, p, k)
    ensures p[y] == c ==> AgreesAfter(t, p, k, y - 1)
  {
    if p[y] != c {
      MismatchAt(t, p, k, y);
    } else if y == 0 {
      MatchAt(t, p, k);
    }
  }
}
