/**
 * The iterators over a concatenation tree: a stack of the subtrees still to
 * visit, the leaf being read, the index in that leaf of the last character
 * returned, that character's absolute position, and a pending skip.
 *
 * `ConcatIterator` is `ConcatenationRopeIteratorImpl` (the same in both
 * trees), which is what `iterator(start)` of a concatenation node builds
 * in both; with `prune` set it is the Kotlin `ConcatenationRopeIterator`,
 * which pushes only non-empty children and reports the end with
 * NoSuchElement instead of IllegalArgument, but which no code of the
 * library constructs. `ConcatReverseIterator` is
 * `ConcatenationRopeReverseIteratorImpl`, which walks the leaves right to
 * left.
 */
module ConcatIterators {
  import opened JavaLang
  import opened Ropes
  import opened Rebalancing

  /** Every rope of the list has a character. */
  predicate AllNonEmpty(rs: seq<Rope>) {
    rs == [] || (Length(rs[0]) > 0 && AllNonEmpty(rs[1..]))
  }

  /** The characters of a stack whose top is the rope just left of the reverse walk's leaf: bottom first. */
  function FlattenBack(rs: seq<Rope>): seq<char>
    requires AllValid(rs)
  {
    if rs == [] then [] else FlattenBack(rs[1..]) + Content(rs[0])
  }

  /** Pushing one rope onto a forward work stack puts its characters first. */
  lemma PushFront(y: Rope, s: seq<Rope>)
    requires Valid(y) && AllValid(s)
    ensures AllValid([y] + s) && Flatten([y] + s) == Content(y) + Flatten(s)
    ensures SizeOfAll([y] + s) == Size(y) + SizeOfAll(s)
    ensures AllNonEmpty(s) && Length(y) > 0 ==> AllNonEmpty([y] + s)
  {
    assert ([y] + s)[1..] == s;
  }

  /** Pushing one rope onto a reverse work stack puts its characters last. */
  lemma PushBack(y: Rope, s: seq<Rope>)
    requires Valid(y) && AllValid(s)
    ensures AllValid([y] + s) && FlattenBack([y] + s) == FlattenBack(s) + Content(y)
    ensures SizeOfAll([y] + s) == Size(y) + SizeOfAll(s)
  {
    assert ([y] + s)[1..] == s;
  }

  /** The reverse walk pushes a node's left child, then its right one. */
  lemma PushChildrenBack(x: Rope, s: seq<Rope>)
    requires x.Concat? && Valid(x) && AllValid(s)
    ensures AllValid([x.right, x.left] + s) && FlattenBack([x.right, x.left] + s) == FlattenBack(s) + Content(x)
    ensures SizeOfAll([x.right, x.left] + s) < Size(x) + SizeOfAll(s)
  {
    NodeParts(x);
    PushBack(x.left, s);
    PushBack(x.right, [x.left] + s);
    assert [x.right] + ([x.left] + s) == [x.right, x.left] + s;
  }

  /** Popping the top rope off a work stack. */
  lemma Pop(s: seq<Rope>)
    requires AllValid(s) && s != []
    ensures Valid(s[0]) && AllValid(s[1..])
    ensures Flatten(s) == Content(s[0]) + Flatten(s[1..]) && FlattenBack(s) == FlattenBack(s[1..]) + Content(s[0])
    ensures SizeOfAll(s) == Size(s[0]) + SizeOfAll(s[1..])
  {
    assert forall k :: 0 <= k < |s| - 1 ==> s[1..][k] == s[k + 1];
  }

  /** `get` of a position inside a rope is its character there. */
  lemma LeafGet(r: Rope, i: int)
    requires Valid(r) && 0 <= i < Length(r)
    ensures Get(r, i) == Ok(Content(r)[i])
  {
  }

  /** A concatenation node's characters, size and length, from its children's. */
  lemma NodeParts(x: Rope)
    requires x.Concat? && Valid(x)
    ensures Valid(x.left) && Valid(x.right) && Content(x) == Content(x.left) + Content(x.right)
    ensures Size(x) == 1 + Size(x.left) + Size(x.right)
    ensures Length(x) == Length(x.left) + Length(x.right) && 0 <= Length(x.left) && 0 <= Length(x.right)
  {
    LengthBounds(x.left);
    LengthBounds(x.right);
  }

  /**
   * A concatenation node's children go on the stack right first, so that
   * the left one is on top; a pruned walk pushes only those with a
   * character.
   */
  method PushChildren(x: Rope, s: seq<Rope>, prune: bool) returns (t: seq<Rope>)
    requires x.Concat? && Valid(x) && AllValid(s)
    ensures AllValid(t) && Flatten(t) == Content(x) + Flatten(s)
    ensures SizeOfAll(t) < Size(x) + SizeOfAll(s)
    ensures prune && AllNonEmpty(s) ==> AllNonEmpty(t)
    ensures t == [] ==> prune && Length(x) == 0
    ensures !prune ==> t == [x.left, x.right] + s
  {
    NodeParts(x);
    Regroup(Content(x.left), Content(x.right), Flatten(s));
    var u := s;
    if !prune || Length(x.right) != 0 {
      PushFront(x.right, s);
      u := [x.right] + s;
    }
    t := u;
    if !prune || Length(x.left) != 0 {
      PushFront(x.left, u);
      t := [x.left] + u;
    }
  }

  /** Characters of a node, then of the stack below it, in either grouping; an empty part adds nothing. */
  lemma Regroup(a: seq<char>, b: seq<char>, c: seq<char>)
    ensures a + (b + c) == (a + b) + c
    ensures a == [] ==> a + b == b && a + (b + c) == b + c
    ensures b == [] ==> b + c == c
  {
  }

  /**
   * The leaf an unpruned forward walk ends in: the rightmost leaf of the
   * rope at the bottom of its stack, or the current leaf once the stack is
   * empty.
   */
  function EndLeaf(cur: Rope, st: seq<Rope>): (l: Rope)
    ensures !l.Concat?
  {
    RightmostLeaf(if st == [] then cur else st[|st| - 1])
  }

  /**
   * The leaf an unpruned reverse walk ends in: the leftmost leaf of the
   * rope at the bottom of its stack, or the current leaf once the stack is
   * empty.
   */
  function StartLeaf(cur: Rope, st: seq<Rope>): (l: Rope)
    ensures !l.Concat?
  {
    LeftmostLeaf(if st == [] then cur else st[|st| - 1])
  }

  /** A stack without characters ends in a rope without characters. */
  lemma {:induction false} EmptyStackBottom(rs: seq<Rope>)
    requires AllValid(rs)
    ensures rs != [] && Flatten(rs) == [] ==> Content(rs[|rs| - 1]) == []
    ensures rs != [] && FlattenBack(rs) == [] ==> Content(rs[|rs| - 1]) == []
  {
    if |rs| > 1 {
      Pop(rs);
      EmptyStackBottom(rs[1..]);
      assert rs[1..][|rs| - 2] == rs[|rs| - 1];
    }
  }

  /** A stack of non-empty ropes holds a character exactly when it holds a rope. */
  lemma FlattenNonEmpty(rs: seq<Rope>)
    requires AllValid(rs)
    ensures AllNonEmpty(rs) ==> (Flatten(rs) == [] <==> rs == [])
  {
    if rs != [] && AllNonEmpty(rs) {
      assert |Content(rs[0])| > 0;
    }
  }

  lemma {:induction false} FlattenBackLength(rs: seq<Rope>)
    requires AllValid(rs)
    ensures |FlattenBack(rs)| == TotalLength(rs) == |Flatten(rs)|
  {
    FlattenLength(rs);
    if rs != [] {
      FlattenBackLength(rs[1..]);
    }
  }

  /** Taking off the first `|a|` characters of `s[i..]` leaves `s[i + |a|..]`. */
  lemma DropPrefix(s: seq<char>, i: int, a: seq<char>, b: seq<char>)
    requires 0 <= i <= |s| && s[i..] == a + b
    ensures i + |a| <= |s| && s[i + |a|..] == b
  {
    assert s[i..][|a|..] == b;
  }

  /** The first `|a|` characters of `s[..j]` are `s[..|a|]`. */
  lemma TakePrefix(s: seq<char>, j: int, a: seq<char>, b: seq<char>)
    requires 0 <= j <= |s| && s[..j] == a + b
    ensures |a| <= j && s[..|a|] == a
  {
    assert s[..j][..|a|] == a;
  }

  /**
   * The descent both forward loops share: pop the top rope; a concatenation
   * node pushes its right child, then its left one (pruned: only those with
   * a character), and the popping goes on; any other node is the next leaf.
   * The popped node is returned even when the stack runs out first, which
   * only a pruned walk over an empty concatenation node can do.
   */
  method FirstLeaf(s: seq<Rope>, prune: bool) returns (cur: Rope, rest: seq<Rope>)
    requires AllValid(s) && s != []
    requires prune ==> AllNonEmpty(s[1..])
    ensures Valid(cur) && AllValid(rest) && Content(cur) + Flatten(rest) == Flatten(s)
    ensures prune ==> AllNonEmpty(rest)
    ensures cur.Concat? ==> prune && rest == [] && Length(cur) == 0
    ensures !prune ==> EndLeaf(cur, rest) == RightmostLeaf(s[|s| - 1])
    ensures SizeOfAll(rest) < SizeOfAll(s)
  {
    cur, rest := s[0], s;
    while rest != []
      invariant AllValid(rest) && Valid(cur)
      invariant rest != [] ==> Flatten(rest) == Flatten(s)
      invariant prune ==> rest == s || AllNonEmpty(rest)
      invariant rest == [] ==> Content(cur) == Flatten(s) && prune && cur.Concat? && Length(cur) == 0
      invariant !prune ==> EndLeaf(cur, rest) == RightmostLeaf(s[|s| - 1])
      invariant SizeOfAll(rest) <= SizeOfAll(s)
      decreases SizeOfAll(rest)
    {
      Pop(rest);
      var x := rest[0];
      var tail := rest[1..];
      assert tail != [] ==> tail[|tail| - 1] == rest[|rest| - 1];
      cur := x;
      if x.Concat? {
        rest := PushChildren(x, tail, prune);
      } else {
        rest := tail;
        break;
      }
    }
  }

  /**
   * The reverse walk's descent: a concatenation node pushes its left child,
   * then its right one, so the popping reaches the rightmost leaf first.
   */
  method LastLeaf(s: seq<Rope>) returns (cur: Rope, rest: seq<Rope>)
    requires AllValid(s) && s != []
    ensures Valid(cur) && !cur.Concat? && AllValid(rest) && FlattenBack(rest) + Content(cur) == FlattenBack(s)
    ensures StartLeaf(cur, rest) == LeftmostLeaf(s[|s| - 1])
    ensures SizeOfAll(rest) < SizeOfAll(s)
  {
    cur, rest := s[0], s;
    while rest != []
      invariant AllValid(rest) && rest != [] && FlattenBack(rest) == FlattenBack(s)
      invariant LeftmostLeaf(rest[|rest| - 1]) == LeftmostLeaf(s[|s| - 1])
      invariant SizeOfAll(rest) <= SizeOfAll(s)
      decreases SizeOfAll(rest)
    {
      Pop(rest);
      var x := rest[0];
      assert |rest| > 1 ==> rest[1..][|rest| - 2] == rest[|rest| - 1];
      cur, rest := x, rest[1..];
      if x.Concat? {
        PushChildrenBack(x, rest);
        rest := [x.right, x.left] + rest;
      } else {
        break;
      }
    }
  }

  /**
   * A forward walk over `text`: the leaf `cur`, read up to index `cp`,
   * starts at `start` and is followed by the ropes of the stack `st`, top
   * first, up to the end of `text`.
   */
  ghost predicate Walk(text: seq<char>, start: int, cur: Rope, cp: int, st: seq<Rope>)
  {
    Valid(cur) && AllValid(st) && -1 <= cp < Length(cur) &&
    0 <= start <= |text| && text[start..] == Content(cur) + Flatten(st)
  }

  /**
   * The loop of the forward `moveForward`, over the walk's parts: `amount`
   * characters on from index `cp` of the leaf `cur`, taking leaf after leaf
   * off the stack. `text` is what the walk reads and `off` where `cur`
   * starts in it. It stops in a leaf when the target is in `text`; otherwise
   * it runs out of stack in the last leaf, `left` characters beyond the end
   * of `text`.
   */
  method SeekForward(ghost text: seq<char>, ghost off: int, cur: Rope, cp: int, st: seq<Rope>, amount: int, prune: bool)
    returns (found: bool, cur': Rope, cp': int, st': seq<Rope>, ghost off': int, left: int)
    requires Walk(text, off, cur, cp, st)
    requires (prune ==> AllNonEmpty(st)) && 0 <= amount
    ensures Walk(text, off', cur', cp', st')
    ensures prune ==> AllNonEmpty(st')
    ensures found <==> off + cp + amount < |text|
    ensures found ==> off' + cp' == off + cp + amount
    ensures found && 0 < amount ==> 0 <= cp' && text[off + cp + amount] == Content(cur')[cp']
    ensures !found ==> off + cp + amount - left == |text| - 1
    ensures !prune && !cur.Concat? ==> !cur'.Concat? && EndLeaf(cur', st') == EndLeaf(cur, st)
  {
    cur', cp', st', off' := cur, cp, st, off;
    var remaining := amount;
    while remaining != 0
      invariant Walk(text, off', cur', cp', st')
      invariant prune ==> AllNonEmpty(st')
      invariant !prune && !cur.Concat? ==> !cur'.Concat? && EndLeaf(cur', st') == EndLeaf(cur, st)
      invariant 0 <= remaining && off' + cp' + remaining == off + cp + amount
      invariant 0 < amount ==> 0 < remaining
      decreases remaining, SizeOfAll(st')
    {
      var available := Length(cur') - cp' - 1;
      if remaining <= available {
        cp' := cp' + remaining;
        assert text[off'..][cp'] == Content(cur')[cp'];
        return true, cur', cp', st', off', 0;
      }
      remaining := remaining - available;
      FlattenLength(st');
      if st' == [] {
        return false, cur', cp', st', off', remaining;
      }
      DropPrefix(text, off', Content(cur'), Flatten(st'));
      off' := off' + Length(cur');
      cur', st' := FirstLeaf(st', prune);
      LengthBounds(cur');
      cp' := -1;
    }
    FlattenLength(st');
    found, left := true, 0;
  }

  /**
   * The forward walk. In the state it keeps, the leaf `current` starts at
   * `pos - currentPos` and is followed, character for character, by the
   * ropes on the stack, top first.
   */
  class ConcatIterator {
    const rope: Rope
    const prune: bool
    var stack: seq<Rope>
    var current: Rope
    var currentPos: int
    var skip: int
    var pos: int

    ghost predicate Valid()
      reads this
    {
      Ropes.Valid(rope) && Walk(Content(rope), pos - currentPos, current, currentPos, stack) &&
      0 <= skip && (prune ==> AllNonEmpty(stack)) &&
      (!prune ==> !current.Concat? && EndLeaf(current, stack) == RightmostLeaf(rope))
    }

    /** The characters after the last one returned. */
    ghost function Remaining(): (s: seq<char>)
      requires Valid()
      reads this
      ensures -1 <= pos < Length(rope) && |s| == Length(rope) - pos - 1
    {
      Content(rope)[pos + 1..]
    }

    /**
     * The constructor up to its range check: push the rope and descend to
     * its first leaf (pruned: its first non-empty leaf), before the first
     * character.
     */
    constructor (r: Rope, pruneEmpty: bool)
      requires Ropes.Valid(r)
      ensures Valid() && rope == r && prune == pruneEmpty
      ensures pos == -1 && currentPos == -1 && skip == 0 && Remaining() == Content(r)
    {
      FlattenSingle(r);
      assert [r][1..] == [];
      var cur, rest := FirstLeaf([r], pruneEmpty);
      assert Content(r)[0..] == Content(r);
      rope, prune := r, pruneEmpty;
      stack, current, currentPos, skip, pos := rest, cur, -1, 0, -1;
    }

    /** `canMoveBackwards(amount)`: the position `amount` back is still in the current leaf, or just before it. */
    function CanMoveBackwards(amount: int): (b: bool)
      requires Valid()
      reads this
      ensures b <==> pos - currentPos - 1 <= pos - amount
      ensures b && 0 <= amount ==> -1 <= pos - amount
    {
      -1 <= currentPos - amount
    }

    /**
     * `hasNext()`: characters remain in the current leaf or the stack is not
     * empty. It never misses a character, but without pruning it can promise
     * one when only empty leaves are left; with pruning it is exact. Once
     * the last character is read, an unpruned walk promises one more exactly
     * when the rope ends in an empty leaf, and the `next()` that follows
     * fails.
     */
    function HasNext(): (b: bool)
      requires Valid()
      reads this
      ensures Remaining() != [] ==> b
      ensures b && Remaining() == [] ==> !prune && stack != [] && Flatten(stack) == []
      ensures prune ==> (b <==> Remaining() != [])
      ensures !prune && Remaining() == [] && 0 <= currentPos ==> (b <==> Length(RightmostLeaf(rope)) == 0)
    {
      FlattenLength(stack);
      FlattenNonEmpty(stack);
      assert Remaining() == Content(current)[currentPos + 1..] + Flatten(stack);
      EmptyStackBottom(stack);
      if stack != [] then OuterLeaves(stack[|stack| - 1]); currentPos < Length(current) - 1 || stack != []
      else currentPos < Length(current) - 1 || stack != []
    }

    /** `skip(amount)`: the next `next()` moves on `amount` further characters. */
    method Skip(amount: int)
      requires Valid() && 0 <= amount
      modifies this
      ensures Valid() && skip == amount
      ensures pos == old(pos) && currentPos == old(currentPos) && current == old(current) && stack == old(stack)
    {
      skip := amount;
    }

    /**
     * `moveBackwards(amount)`: refused with IllegalArgument unless
     * `canMoveBackwards(amount)`; otherwise both counters go back.
     */
    method MoveBackwards(amount: int) returns (o: Outcome)
      requires Valid() && 0 <= amount
      modifies this
      ensures o == Pass <==> old(CanMoveBackwards(amount))
      ensures o.Fail? ==> o.error == IllegalArgument && unchanged(this)
      ensures o == Pass ==>
        Valid() && pos == old(pos) - amount && Remaining() == Content(rope)[old(pos) - amount + 1..] &&
        current == old(current) && stack == old(stack) && skip == old(skip)
    {
      if !CanMoveBackwards(amount) {
        return Fail(IllegalArgument);
      }
      currentPos := currentPos - amount;
      pos := pos - amount;
      o := Pass;
    }

    /**
     * `moveForward(amount)`: on to the character `amount` further on,
     * leaf after leaf. Past the end it fails, and `pos` is left on the last
     * character of the rope.
     */
    method MoveForward(amount: int) returns (o: Outcome)
      requires Valid() && 0 <= amount
      modifies this
      ensures old(pos) + amount < Length(rope) ==>
        o == Pass && Valid() && pos == old(pos) + amount && skip == old(skip)
      ensures old(pos) + amount < Length(rope) && 0 < amount ==>
        0 <= currentPos && Content(current)[currentPos] == Content(rope)[pos]
      ensures old(pos) + amount >= Length(rope) ==>
        o == Fail(if prune then NoSuchElement else IllegalArgument) && pos == Length(rope) - 1
    {
      var found, cur, cp, st, left;
      ghost var off;
      found, cur, cp, st, off, left := SeekForward(Content(rope), pos - currentPos, current, currentPos, stack, amount, prune);
      if !found {
        current, currentPos, stack, pos := cur, cp, st, pos + amount - left;
        return Fail(if prune then NoSuchElement else IllegalArgument);
      }
      current, currentPos, stack, pos := cur, cp, st, pos + amount;
      o := Pass;
    }

    /**
     * `next()`: move on by one plus the pending skip, clear the skip, and
     * return the character there. Without a skip this is the first of the
     * remaining characters.
     */
    method Next() returns (c: Result<char>)
      requires Valid()
      modifies this
      ensures old(pos) + 1 + old(skip) < Length(rope) ==>
        c == Ok(Content(rope)[old(pos) + 1 + old(skip)]) && Valid() && pos == old(pos) + 1 + old(skip) && skip == 0
      ensures old(skip) == 0 && old(Remaining()) != [] ==> c == Ok(old(Remaining())[0]) && Remaining() == old(Remaining())[1..]
      ensures old(pos) + 1 + old(skip) >= Length(rope) ==>
        c == Err(if prune then NoSuchElement else IllegalArgument) && pos == Length(rope) - 1
    {
      var o := MoveForward(1 + skip);
      if o.Fail? {
        return Err(o.error);
      }
      skip := 0;
      LeafGet(current, currentPos);
      c := Get(current, currentPos);
    }
  }

  /**
   * `iterator(start)` of a concatenation node: the constructor, its range
   * check (IllegalArgument, after the descent), then a move to just before
   * `start`.
   */
  method NewConcatIterator(r: Rope, start: int, prune: bool) returns (res: Result<ConcatIterator>)
    requires Ropes.Valid(r)
    ensures res.Ok? <==> 0 <= start <= Length(r)
    ensures res.Err? ==> res.error == IllegalArgument
    ensures res.Ok? ==>
      fresh(res.value) && res.value.Valid() && res.value.rope == r && res.value.prune == prune &&
      res.value.pos == start - 1 && res.value.skip == 0 && res.value.Remaining() == Content(r)[start..]
  {
    var it := new ConcatIterator(r, prune);
    if start < 0 || start > Length(r) {
      return Err(IllegalArgument);
    }
    var o := it.MoveForward(start);
    return Ok(it);
  }

  /**
   * A reverse walk over `text`: the leaf `cur`, read down to index `cp`,
   * starts at `start` and is preceded by the ropes of the stack `st`, top
   * first, nearest first, down to the beginning of `text`.
   */
  ghost predicate WalkBack(text: seq<char>, start: int, cur: Rope, cp: int, st: seq<Rope>)
  {
    Valid(cur) && AllValid(st) && 0 <= cp <= Length(cur) &&
    0 <= start && start + Length(cur) <= |text| && text[..start + Length(cur)] == FlattenBack(st) + Content(cur)
  }

  /**
   * The loop of the reverse `moveForward`, over the walk's parts: `amount`
   * characters back from index `cp` of the leaf `cur`, taking leaf after
   * leaf off the stack. `text` is what the walk reads and `off` where `cur`
   * starts in it. It stops in a leaf when the target is in `text`;
   * otherwise it runs out of stack.
   */
  method SeekBackward(ghost text: seq<char>, ghost off: int, cur: Rope, cp: int, st: seq<Rope>, amount: int)
    returns (found: bool, cur': Rope, cp': int, st': seq<Rope>, ghost off': int)
    requires WalkBack(text, off, cur, cp, st) && 0 <= amount
    ensures WalkBack(text, off', cur', cp', st')
    ensures found <==> amount <= off + cp
    ensures found ==> off' + cp' == off + cp - amount
    ensures found && 0 < amount ==> cp' < Length(cur') && text[off + cp - amount] == Content(cur')[cp']
    ensures !cur.Concat? ==> !cur'.Concat? && StartLeaf(cur', st') == StartLeaf(cur, st)
  {
    cur', cp', st', off' := cur, cp, st, off;
    FlattenBackLength(st');
    var remaining := amount;
    while remaining != 0
      invariant WalkBack(text, off', cur', cp', st') && |FlattenBack(st')| == off'
      invariant !cur.Concat? ==> !cur'.Concat? && StartLeaf(cur', st') == StartLeaf(cur, st)
      invariant 0 <= remaining && off' + cp' - remaining == off + cp - amount
      invariant 0 < amount ==> 0 < remaining
      decreases remaining, SizeOfAll(st')
    {
      if cp' - remaining > -1 {
        cp' := cp' - remaining;
        assert text[..off' + Length(cur')][off' + cp'] == Content(cur')[cp'];
        return true, cur', cp', st', off';
      }
      remaining := remaining - cp';
      if remaining > 0 && st' == [] {
        return false, cur', cp', st', off';
      }
      TakePrefix(text, off' + Length(cur'), FlattenBack(st'), Content(cur'));
      cur', st' := LastLeaf(st');
      FlattenBackLength(st');
      off' := off' - Length(cur');
      cp' := Length(cur');
    }
    found := true;
  }

  /**
   * The reverse walk. The leaf `current` starts at `pos - currentPos`,
   * `currentPos` is the index in it of the last character returned (its
   * length before the first), and the stack holds, top first, the ropes to
   * its left, nearest first.
   */
  class ConcatReverseIterator {
    const rope: Rope
    var stack: seq<Rope>
    var current: Rope
    var currentPos: int
    var skip: int
    var pos: int

    ghost predicate Valid()
      reads this
    {
      Ropes.Valid(rope) && WalkBack(Content(rope), pos - currentPos, current, currentPos, stack) &&
      0 <= skip && !current.Concat? && StartLeaf(current, stack) == LeftmostLeaf(rope)
    }

    /** The characters before the last one returned, nearest first. */
    ghost function Remaining(): (s: seq<char>)
      requires Valid()
      reads this
      ensures 0 <= pos <= Length(rope) && |s| == pos
    {
      FlattenBackLength(stack);
      Rev(Content(rope)[..pos])
    }

    /**
     * The constructor up to its range check: push the rope and descend to
     * its last leaf; the position is the rope's length.
     */
    constructor (r: Rope)
      requires Ropes.Valid(r)
      ensures Valid() && rope == r && pos == Length(r) && skip == 0 && Remaining() == Rev(Content(r))
    {
      PushBack(r, []);
      assert [r] + [] == [r];
      var cur, rest := LastLeaf([r]);
      FlattenBackLength(rest);
      LengthBounds(r);
      assert Content(r)[..Length(r)] == Content(r);
      rope := r;
      stack, current, currentPos, skip, pos := rest, cur, Length(cur), 0, Length(r);
    }

    /** `canMoveBackwards(amount)`: moving back towards the end stays within the current leaf. */
    function CanMoveBackwards(amount: int): (b: bool)
      requires Valid()
      reads this
      ensures b <==> pos + amount <= pos - currentPos + Length(current)
      ensures b ==> pos + amount <= Length(rope)
    {
      currentPos + amount <= Length(current)
    }

    /**
     * `hasNext()`: characters remain before the current index or the stack
     * is not empty; it can promise a character when only empty leaves are
     * left. Once the first character is read, it promises one more exactly
     * when the rope begins with an empty leaf, and the `next()` that follows
     * fails.
     */
    function HasNext(): (b: bool)
      requires Valid()
      reads this
      ensures Remaining() != [] ==> b
      ensures b && Remaining() == [] ==> stack != [] && FlattenBack(stack) == []
      ensures Remaining() == [] && currentPos < Length(current) ==> (b <==> Length(LeftmostLeaf(rope)) == 0)
    {
      FlattenBackLength(stack);
      assert Content(rope)[..pos] == FlattenBack(stack) + Content(current)[..currentPos];
      EmptyStackBottom(stack);
      if stack != [] then OuterLeaves(stack[|stack| - 1]); currentPos > 0 || stack != []
      else currentPos > 0 || stack != []
    }

    /** `skip(amount)`. */
    method Skip(amount: int)
      requires Valid() && 0 <= amount
      modifies this
      ensures Valid() && skip == amount
      ensures pos == old(pos) && currentPos == old(currentPos) && current == old(current) && stack == old(stack)
    {
      skip := amount;
    }

    /** `moveBackwards(amount)`: refused with IllegalArgument unless `canMoveBackwards(amount)`; otherwise both counters go up. */
    method MoveBackwards(amount: int) returns (o: Outcome)
      requires Valid() && 0 <= amount
      modifies this
      ensures o == Pass <==> old(CanMoveBackwards(amount))
      ensures o.Fail? ==> o.error == IllegalArgument && unchanged(this)
      ensures o == Pass ==>
        Valid() && pos == old(pos) + amount && Remaining() == Rev(Content(rope)[..old(pos) + amount]) &&
        current == old(current) && stack == old(stack) && skip == old(skip)
    {
      if !CanMoveBackwards(amount) {
        return Fail(IllegalArgument);
      }
      FlattenBackLength(stack);
      currentPos := currentPos + amount;
      pos := pos + amount;
      o := Pass;
    }

    /**
     * `moveForward(amount)`: back to the character `amount` before, leaf
     * after leaf. Past the beginning it fails with IllegalArgument, and
     * `pos` is left at `amount` before where it was.
     */
    method MoveForward(amount: int) returns (o: Outcome)
      requires Valid() && 0 <= amount
      modifies this
      ensures amount <= old(pos) ==> o == Pass && Valid() && pos == old(pos) - amount && skip == old(skip)
      ensures amount <= old(pos) && 0 < amount ==>
        currentPos < Length(current) && Get(current, currentPos) == Ok(Content(rope)[pos])
      ensures old(pos) < amount ==> o == Fail(IllegalArgument) && pos == old(pos) - amount
    {
      var found, cur, cp, st;
      ghost var off;
      found, cur, cp, st, off := SeekBackward(Content(rope), pos - currentPos, current, currentPos, stack, amount);
      if found && 0 < amount {
        LeafGet(cur, cp);
      }
      current, currentPos, stack, pos := cur, cp, st, pos - amount;
      if !found {
        return Fail(IllegalArgument);
      }
      o := Pass;
    }

    /**
     * `next()`: move back by one plus the pending skip, clear the skip, and
     * return the character there. Without a skip this is the nearest of the
     * remaining characters.
     */
    method Next() returns (c: Result<char>)
      requires Valid()
      modifies this
      ensures 1 + old(skip) <= old(pos) ==>
        c == Ok(Content(rope)[old(pos) - 1 - old(skip)]) && Valid() && pos == old(pos) - 1 - old(skip) && skip == 0
      ensures old(skip) == 0 && old(Remaining()) != [] ==> c == Ok(old(Remaining())[0]) && Remaining() == old(Remaining())[1..]
      ensures old(pos) < 1 + old(skip) ==> c == Err(IllegalArgument) && pos == old(pos) - 1 - old(skip)
    {
      ghost var p0, s0 := pos, skip;
      var o := MoveForward(1 + skip);
      if o.Fail? {
        return Err(o.error);
      }
      skip := 0;
      LeafGet(current, currentPos);
      c := Get(current, currentPos);
      if s0 == 0 {
        RevOfPrefix(Content(rope), p0);
      }
    }
  }

  /**
   * `reverseIterator(start)` of a concatenation node: the constructor, its
   * range check (IllegalArgument, after the descent), then a move to
   * `start` characters before the end.
   */
  method NewConcatReverseIterator(r: Rope, start: int) returns (res: Result<ConcatReverseIterator>)
    requires Ropes.Valid(r)
    ensures res.Ok? <==> 0 <= start <= Length(r)
    ensures res.Err? ==> res.error == IllegalArgument
    ensures res.Ok? ==>
      fresh(res.value) && res.value.Valid() && res.value.rope == r &&
      res.value.pos == Length(r) - start && res.value.skip == 0 &&
      res.value.Remaining() == Rev(Content(r)[..Length(r) - start])
  {
    var it := new ConcatReverseIterator(r);
    if start < 0 || start > Length(r) {
      return Err(IllegalArgument);
    }
    var o := it.MoveForward(start);
    return Ok(it);
  }
}
