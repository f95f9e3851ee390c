/**
 * The iterators of the nodes that are no concatenation: an index cursor that
 * reads `get(current++)` forwards or `get(--current)` backwards (the flat
 * ropes and the ReverseRope), and the substring view's iterators, which keep
 * their own `position` and drive a cursor over the base.
 *
 * The Kotlin flat iterators stop at the end with NoSuchElement ("guarded");
 * the Java flat iterators and both ReverseRope versions read on past the end
 * and fail, or not, as `get` at that index does. No reverse iterator has a
 * guard.
 */
module LeafIterators {
  import opened JavaLang
  import opened Ropes

  /** A start index outside `[0, length]` is refused with IndexOutOfBounds, by every node. */
  function CheckStart(length: int, start: int): (o: Outcome)
    ensures o == Pass <==> 0 <= start <= length
    ensures o.Fail? ==> o.error == IndexOutOfBounds
  {
    if start < 0 || start > length then Fail(IndexOutOfBounds) else Pass
  }

  /** The nodes an index cursor walks over. */
  predicate Walkable(r: Rope) {
    Ropes.Valid(r) && (IsFlat(r) || r.Reversed?)
  }

  /** The characters from `current` to the end, none once `current` has passed it. */
  function After(r: Rope, current: int): (s: seq<char>)
    requires Ropes.Valid(r)
    ensures 0 <= current <= Length(r) ==> |s| == Length(r) - current
    ensures 0 <= current < Length(r) ==> s[0] == Content(r)[current] && s[1..] == After(r, current + 1)
    ensures current >= Length(r) ==> s == []
    decreases Length(r) - current
  {
    if 0 <= current <= Length(r) then Content(r)[current..] else []
  }

  /** The characters before `current`, nearest first; none once `current` has reached 0. */
  function Before(r: Rope, current: int): (s: seq<char>)
    requires Ropes.Valid(r)
    ensures 0 <= current <= Length(r) ==> |s| == current
    ensures 0 < current <= Length(r) ==> s[0] == Content(r)[current - 1] && s[1..] == Before(r, current - 1)
    ensures current <= 0 ==> s == []
    decreases current
  {
    if 0 < current <= Length(r) then
      RevOfPrefix(Content(r), current);
      Rev(Content(r)[..current])
    else []
  }

  /**
   * The forward iterator of a flat rope (`FlatRopeIterator` and the
   * anonymous ones of FlatCharArrayRope, FlatCharSequenceRope and
   * ReverseRope): `next()` returns `get(current++)`.
   */
  class IndexIterator {
    const rope: Rope
    const guarded: bool
    var current: int

    ghost predicate Valid()
      reads this
    {
      Walkable(rope) && 0 <= current && (guarded ==> current <= Length(rope))
    }

    /** The characters the iterator still has to give, in order. */
    ghost function Remaining(): seq<char>
      requires Valid()
      reads this
    {
      After(rope, current)
    }

    /** `iterator(start)` once `start` has passed the node's check. */
    constructor (r: Rope, start: int, guard: bool)
      requires Walkable(r) && CheckStart(Length(r), start) == Pass
      ensures Valid() && rope == r && guarded == guard && current == start
      ensures Remaining() == Content(r)[start..] && |Remaining()| == Length(r) - start
    {
      rope, guarded, current := r, guard, start;
    }

    /** `hasNext()`. */
    function HasNext(): (b: bool)
      requires Valid()
      reads this
      ensures b <==> Remaining() != []
    {
      current < Length(rope)
    }

    /**
     * `next()`: the next character, one step on. At the end a guarded
     * iterator throws NoSuchElement and stays; an unguarded one steps on and
     * returns what `get` gives there.
     */
    method Next() returns (c: Result<char>)
      requires Valid()
      modifies this
      ensures Valid()
      ensures old(Remaining()) != [] ==>
        c == Ok(old(Remaining())[0]) && Remaining() == old(Remaining())[1..] && current == old(current) + 1
      ensures old(Remaining()) == [] && guarded ==> c == Err(NoSuchElement) && current == old(current)
      ensures old(Remaining()) == [] && !guarded ==> c == Get(rope, old(current)) && current == old(current) + 1
    {
      if current < Length(rope) || !guarded {
        c := Get(rope, current);
        current := current + 1;
      } else {
        c := Err(NoSuchElement);
      }
    }
  }

  /**
   * The reverse iterator of a flat rope and of a ReverseRope (`FlatRopeReverseIterator`
   * and the anonymous ones): it starts `start` characters before the end and
   * `next()` returns `get(--current)`, with no end guard.
   */
  class IndexReverseIterator {
    const rope: Rope
    var current: int

    ghost predicate Valid()
      reads this
    {
      Walkable(rope) && current <= Length(rope)
    }

    /** The characters still to come, nearest first. */
    ghost function Remaining(): seq<char>
      requires Valid()
      reads this
    {
      Before(rope, current)
    }

    /** `reverseIterator(start)` once `start` has passed the node's check. */
    constructor (r: Rope, start: int)
      requires Walkable(r) && CheckStart(Length(r), start) == Pass
      ensures Valid() && rope == r && current == Length(r) - start
      ensures Remaining() == Rev(Content(r)[..Length(r) - start]) && |Remaining()| == Length(r) - start
    {
      rope, current := r, Length(r) - start;
    }

    /** `hasNext()`. */
    function HasNext(): (b: bool)
      requires Valid()
      reads this
      ensures b <==> Remaining() != []
    {
      current > 0
    }

    /** `next()`: one step back, then the character there; before the start, what `get` gives there. */
    method Next() returns (c: Result<char>)
      requires Valid()
      modifies this
      ensures Valid() && current == old(current) - 1
      ensures old(Remaining()) != [] ==> c == Ok(old(Remaining())[0]) && Remaining() == old(Remaining())[1..]
      ensures old(Remaining()) == [] ==> c == Get(rope, current)
    {
      current := current - 1;
      c := Get(rope, current);
    }
  }

  /** What the cursor over a substring view's base gives at `index` once the view has run out. */
  function BaseAt(base: Rope, index: int, guarded: bool): (c: Result<char>)
    requires Walkable(base)
    ensures 0 <= index < Length(base) ==> c == Ok(Content(base)[index])
    ensures guarded && index >= Length(base) ==> c == Err(NoSuchElement)
  {
    if guarded && index >= Length(base) then Err(NoSuchElement) else Get(base, index)
  }

  /**
   * The substring view's forward iterator: a cursor over the base started at
   * `offset + start`, and a `position` of its own that `hasNext()` compares
   * with the view's length. `next()` does not look at `position`, so past
   * the view it reads on into the base.
   */
  class SubstringIterator {
    const view: Rope
    const u: IndexIterator
    var position: int

    ghost predicate Valid()
      reads this, u
    {
      view.Substring? && Ropes.Valid(view) && u.Valid() && u.rope == view.base && 0 <= position &&
      (if u.guarded && view.offset + position > Length(view.base)
       then u.current == Length(view.base)
       else u.current == view.offset + position)
    }

    /** The characters of the view still to come, in order. */
    ghost function Remaining(): seq<char>
      requires Valid()
      reads this, u
    {
      After(view, position)
    }

    /** `iterator(start)` of a substring view, once `start` has passed the check. */
    constructor (v: Rope, start: int, guard: bool)
      requires v.Substring? && Ropes.Valid(v) && CheckStart(Length(v), start) == Pass
      ensures Valid() && fresh(u) && view == v && u.guarded == guard && position == start
      ensures Remaining() == Content(v)[start..]
    {
      var it := new IndexIterator(v.base, v.offset + start, guard);
      view, u, position := v, it, start;
    }

    /** `hasNext()`. */
    function HasNext(): (b: bool)
      requires Valid()
      reads this, u
      ensures b <==> Remaining() != []
    {
      position < view.len
    }

    /**
     * `next()`: within the view, its next character; past it, the base
     * character after the window, and at the end of the base what the base's
     * cursor does there.
     */
    method Next() returns (c: Result<char>)
      requires Valid()
      modifies this, u
      ensures Valid() && position == old(position) + 1
      ensures old(Remaining()) != [] ==> c == Ok(old(Remaining())[0]) && Remaining() == old(Remaining())[1..]
      ensures old(Remaining()) == [] ==> c == BaseAt(view.base, view.offset + old(position), u.guarded)
    {
      position := position + 1;
      c := u.Next();
      if old(position) < view.len {
        assert Content(view)[old(position)] == Content(view.base)[view.offset + old(position)];
      }
    }
  }

  /**
   * The substring view's reverse iterator: a reverse cursor over the base
   * started so that it stands at `offset + position`, where `position`
   * starts at `length - start`. Past the view's start it reads on into the
   * base before the window.
   */
  class SubstringReverseIterator {
    const view: Rope
    const u: IndexReverseIterator
    var position: int

    ghost predicate Valid()
      reads this, u
    {
      view.Substring? && Ropes.Valid(view) && u.Valid() && u.rope == view.base &&
      position <= view.len && u.current == view.offset + position
    }

    /** The characters of the view still to come, nearest first. */
    ghost function Remaining(): seq<char>
      requires Valid()
      reads this, u
    {
      Before(view, position)
    }

    /** `reverseIterator(start)` of a substring view, once `start` has passed the check. */
    constructor (v: Rope, start: int)
      requires v.Substring? && Ropes.Valid(v) && CheckStart(Length(v), start) == Pass
      ensures Valid() && fresh(u) && view == v && position == Length(v) - start
      ensures Remaining() == Rev(Content(v)[..Length(v) - start])
    {
      var it := new IndexReverseIterator(v.base, Length(v.base) - v.offset - v.len + start);
      view, u, position := v, it, v.len - start;
    }

    /** `hasNext()`. */
    function HasNext(): (b: bool)
      requires Valid()
      reads this, u
      ensures b <==> Remaining() != []
    {
      position > 0
    }

    /** `next()`: within the view, its previous character; before it, what the base's cursor gives. */
    method Next() returns (c: Result<char>)
      requires Valid()
      modifies this, u
      ensures Valid() && position == old(position) - 1
      ensures old(Remaining()) != [] ==> c == Ok(old(Remaining())[0]) && Remaining() == old(Remaining())[1..]
      ensures old(Remaining()) == [] ==> c == Get(view.base, view.offset + position)
    {
      ghost var p0, before := position, u.Remaining();
      position := position - 1;
      c := u.Next();
      if p0 > 0 {
        ViewStep(view, p0);
      } else if before != [] {
        assert c == Ok(Content(view.base)[u.current]);
      }
    }
  }

  /** One step back inside a substring view is one step back in its base. */
  lemma ViewStep(view: Rope, p: int)
    requires view.Substring? && Ropes.Valid(view) && 0 < p <= view.len
    ensures Before(view, p)[0] == Content(view.base)[view.offset + p - 1]
    ensures Before(view, p)[1..] == Before(view, p - 1)
  {
    assert Content(view)[p - 1] == Content(view.base)[view.offset + p - 1];
  }
}
