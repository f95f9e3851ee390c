/**
 * `getForSequentialAccess()` of a concatenation node: a `CharSequence` over
 * the rope whose `get` drives one forward walk (the unpruned
 * `ConcatenationRopeIteratorImpl`), so that reading the characters in order
 * costs one step each. An index ahead of the walk is reached with a skip, an
 * index a little behind it (still in the current leaf) with a move back, and
 * any other one with the rope's own `get`, which leaves the walk where it was.
 */
module SequentialAccess {
  import opened JavaLang
  import opened Ropes
  import opened RopeOps
  import opened ConcatIterators

  class Adapter {
    const rope: Rope
    const walk: ConcatIterator

    /** The walk is over ropes with the adapter's characters and has no skip pending. */
    ghost predicate Valid()
      reads this, walk
    {
      Ropes.Valid(rope) && walk.Valid() && !walk.prune && walk.skip == 0 &&
      Content(walk.rope) == Content(rope)
    }

    constructor (r: Rope, it: ConcatIterator)
      requires Ropes.Valid(r) && it.Valid() && !it.prune && it.skip == 0 && Content(it.rope) == Content(r)
      ensures Valid() && rope == r && walk == it
    {
      rope, walk := r, it;
    }

    /** `length`: the rope's. */
    function Length(): (n: int)
      requires Valid()
      reads this, walk
      ensures n == |Content(rope)| && n == Ropes.Length(walk.rope)
    {
      Ropes.Length(rope)
    }

    /**
     * `get(index)`. Every index of the rope gives its character, in whatever
     * order they are asked for, and the adapter stays usable. An index past
     * the end fails with IllegalArgument (the walk is then spent); an index
     * the walk cannot move back to, a negative one among them, is answered
     * by the rope's `get` and leaves the walk alone.
     */
    method Get(index: int) returns (c: Result<char>)
      requires Valid()
      modifies walk
      ensures 0 <= index < Ropes.Length(rope) ==> c == Ok(Content(rope)[index]) && Valid()
      ensures index >= Ropes.Length(rope) ==> c == Err(IllegalArgument)
      ensures index <= old(walk.pos) && !old(walk.CanMoveBackwards(walk.pos - index + 1)) ==>
        c == Ropes.Get(rope, index) && unchanged(walk)
      ensures index < 0 ==> c == Ropes.Get(rope, index) && unchanged(walk)
    {
      if index > walk.pos {
        walk.Skip(index - walk.pos - 1);
        c := walk.Next();
      } else {
        var toMoveBack := walk.pos - index + 1;
        if walk.CanMoveBackwards(toMoveBack) {
          var o := walk.MoveBackwards(toMoveBack);
          c := walk.Next();
        } else {
          c := Ropes.Get(rope, index);
        }
      }
    }

    /** `subSequence(start, end)`: the rope's own. */
    function SubSequence(start: int, end: int): (res: Result<Rope>)
      requires Valid()
      reads this, walk
      ensures 0 <= start <= end <= Ropes.Length(rope) ==>
        res.Ok? && Ropes.Valid(res.value) && Content(res.value) == Content(rope)[start..end]
    {
      RopeOps.SubSequence(rope, start, end)
    }
  }

  /**
   * `getForSequentialAccess()` of a concatenation node: the walk is whatever
   * `iterator(0)` builds, cast to `ConcatenationRopeIteratorImpl`. When the
   * left child is empty, `iterator(0)` hands over to the right child, and a
   * right child that is no concatenation node gives an iterator that fails
   * the cast.
   */
  method GetForSequentialAccess(r: Rope) returns (res: Result<Adapter>)
    requires Ropes.Valid(r) && r.Concat?
    ensures res.Ok? <==> IteratorTarget(r, 0).Ok? && IteratorTarget(r, 0).value.0.Concat?
    ensures res.Err? ==> res.error == ClassCast
    ensures res.Ok? ==>
      fresh(res.value) && fresh(res.value.walk) && res.value.Valid() && res.value.rope == r && res.value.walk.pos == -1
    ensures Ropes.Length(r.left) > 0 ==> res.Ok?
  {
    LengthBounds(r);
    var target := IteratorTarget(r, 0);
    var (node, start) := target.value;
    if !node.Concat? {
      return Err(ClassCast);
    }
    var it := NewConcatIterator(node, start, false);
    assert Content(node)[0..] == Content(node) && Content(r)[0..] == Content(r);
    var a := new Adapter(r, it.value);
    return Ok(a);
  }
}
