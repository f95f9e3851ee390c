/**
 * The editing operations `AbstractRope` builds out of `subSequence` and
 * `concatenate`: `append`, `delete`, `insert`, `padStart` and `padEnd`,
 * and the factories that turn a `CharSequence` argument into a rope.
 *
 * The Kotlin and the Java tree differ in one place here: where an argument
 * is appended, the Kotlin code always wraps it in a new
 * FlatCharSequenceRope, a rope argument included, while the Java code
 * passes it through `RopeBuilder.build`, which hands a rope back as it is.
 * Both are modelled; they build different trees over the same characters.
 */
module Edits {
  import opened JavaLang
  import opened Ropes
  import opened Rebalancing
  import opened Concatenating
  import opened RopeOps
  import CS = CharSequences

  /** A `CharSequence` argument: another rope, or any other sequence. */
  datatype Text = RopeText(rope: Rope) | SeqText(cs: CS.CharSeq)

  predicate ValidText(t: Text) {
    match t
    case RopeText(r) => Valid(r)
    case SeqText(cs) => CS.Valid(cs)
  }

  /** The characters of an argument. */
  function TextChars(t: Text): (s: seq<char>)
    requires ValidText(t)
    ensures |s| <= INT_MAX
  {
    match t
    case RopeText(r) => LengthBounds(r); Content(r)
    case SeqText(cs) => CS.Chars(cs)
  }

  /**
   * `Rope.of(sequence)` / `RopeBuilder.build(sequence)`: a rope is returned
   * by identity, any other sequence is borrowed by a FlatCharSequenceRope.
   */
  function Of(t: Text): (r: Rope)
    requires ValidText(t)
    ensures Valid(r) && Content(r) == TextChars(t)
    ensures t.RopeText? ==> r == t.rope
    ensures t.SeqText? ==> r.FlatSeq?
  {
    match t
    case RopeText(r) => r
    case SeqText(cs) => FlatSeq(cs)
  }

  /** `Rope.of(CharArray)` / `RopeBuilder.build(char[])`: a private copy of the whole array. */
  function OfCharArray(chars: seq<char>): (r: Rope)
    requires |chars| <= INT_MAX
    ensures r.FlatChars? && Valid(r) && Content(r) == chars
  {
    NewFlatCharArray(chars, 0, |chars|).value
  }

  /**
   * The Kotlin `FlatCharSequenceRope(chars)` around an argument: a new flat
   * leaf whatever the argument is. A rope argument is borrowed as the
   * sequence of its characters, a snapshot of what the leaf reads through
   * it; `WrapRange` has the leaf's `subSequence` ask the rope itself.
   */
  function Wrap(t: Text): (r: Rope)
    requires ValidText(t)
    ensures r.FlatSeq? && Valid(r) && Content(r) == TextChars(t)
  {
    match t
    case RopeText(r) => LengthBounds(r); FlatSeq(CS.Borrowed(Content(r)))
    case SeqText(cs) => FlatSeq(cs)
  }

  /** A step that gave no rope, or a rope of non-negative length. */
  predicate Sound(res: Result<Rope>) {
    res.Ok? ==> Valid(res.value)
  }

  /** `append(c)`, in both trees: the rope followed by a one-character `String` leaf. */
  function AppendChar(r: Rope, c: char): (res: Result<Rope>)
    requires Valid(r)
    ensures res.Ok? <==> Length(r) < INT_MAX
    ensures res.Err? ==> res.error == IllegalArgument
    ensures res.Ok? ==> Valid(res.value) && Content(res.value) == Content(r) + [c]
  {
    Concatenate(r, FlatString([c]))
  }

  /** The Kotlin `append(chars)`: the rope followed by a new leaf over the argument. */
  function KotlinAppend(r: Rope, t: Text): (res: Result<Rope>)
    requires Valid(r) && ValidText(t)
    ensures res.Ok? <==> Length(r) + |TextChars(t)| <= INT_MAX
    ensures res.Err? ==> res.error == IllegalArgument
    ensures res.Ok? ==> Valid(res.value) && Content(res.value) == Content(r) + TextChars(t)
    ensures Length(r) == 0 ==> res.Ok? && res.value.FlatSeq?
  {
    Concatenate(r, Wrap(t))
  }

  /** The Java `append(suffix)`: the rope followed by `build(suffix)`, a rope suffix as it is. */
  function JavaAppend(r: Rope, t: Text): (res: Result<Rope>)
    requires Valid(r) && ValidText(t)
    ensures res.Ok? <==> Length(r) + |TextChars(t)| <= INT_MAX
    ensures res.Err? ==> res.error == IllegalArgument
    ensures res.Ok? ==> Valid(res.value) && Content(res.value) == Content(r) + TextChars(t)
    ensures Length(r) == 0 && t.RopeText? ==> res == Ok(t.rope)
  {
    Concatenate(r, Of(t))
  }

  /**
   * The ranges whose leaf `WrapRange` can build valid: the argument's own
   * `subSequence`, where it is asked, gives no rope or a valid one.
   */
  predicate SoundRange(t: Text, s: int, e: int)
    requires ValidText(t)
  {
    match t
    case SeqText(_) => Sound(SubSequence(Wrap(t), s, e))
    case RopeText(x) => (s == 0 && e == Length(x)) || e - s >= 8 || Sound(SubSequence(x, s, e))
  }

  /**
   * The Kotlin `FlatCharSequenceRope(chars).subSequence(start, end)`. The
   * whole range is the new leaf itself; any other range shorter than eight
   * characters, and every range of a `String`, is
   * `FlatCharSequenceRope(chars.subSequence(start, end))`, so a rope
   * argument answers with its own `subSequence`, errors included; a longer
   * range is a substring view over the new leaf, refused with
   * IndexOutOfBounds when it does not fit.
   */
  function WrapRange(t: Text, s: int, e: int): (res: Result<Rope>)
    requires ValidText(t) && SoundRange(t, s, e)
    ensures 0 <= s <= e <= |TextChars(t)| ==>
      res.Ok? && Valid(res.value) && Content(res.value) == TextChars(t)[s..e]
    ensures res.Ok? ==> Valid(res.value)
    ensures t.SeqText? && !t.cs.Repeated? && !(0 <= s <= e <= |TextChars(t)|) ==> res == Err(IndexOutOfBounds)
    ensures t.RopeText? && e - s >= 8 && !(0 <= s <= e <= |TextChars(t)|) ==> res == Err(IndexOutOfBounds)
    ensures t.RopeText? && !(s == 0 && e == |TextChars(t)|) && e - s < 8 ==>
      var y := SubSequence(t.rope, s, e);
      (y.Err? ==> res == Err(y.error)) && (y.Ok? ==> res.Ok? && Content(res.value) == Content(y.value))
  {
    match t
    case SeqText(_) => SubSequence(Wrap(t), s, e)
    case RopeText(x) =>
      LengthBounds(x);
      if s == 0 && e == Length(x) then Ok(Wrap(t))
      else if e - s < 8 then
        var y :- SubSequence(x, s, e);
        Ok(Wrap(RopeText(y)))
      else NewSubstring(Wrap(t), s, e - s)
  }

  /**
   * The Kotlin `append(chars, start, end)`: the rope followed by the range
   * `WrapRange` takes of a new leaf over the argument. A range that does
   * not fit is refused with IndexOutOfBounds, except where the argument's
   * own `subSequence` answers: a repeated-character sequence refuses none,
   * and a rope argument asked for fewer than eight characters gives its own
   * error (IllegalArgument from a concatenation) or its own answer.
   */
  function KotlinAppendRange(r: Rope, t: Text, start: int, end: int): (res: Result<Rope>)
    requires Valid(r) && ValidText(t) && SoundRange(t, start, end)
    ensures 0 <= start <= end <= |TextChars(t)| ==>
      (res.Ok? <==> Length(r) + (end - start) <= INT_MAX) &&
      (res.Ok? ==> Valid(res.value) && Content(res.value) == Content(r) + TextChars(t)[start..end])
    ensures !(0 <= start <= end <= |TextChars(t)|) && t.SeqText? && !t.cs.Repeated? ==>
      res == Err(IndexOutOfBounds)
    ensures !(0 <= start <= end <= |TextChars(t)|) && t.RopeText? && end - start >= 8 ==>
      res == Err(IndexOutOfBounds)
    ensures t.RopeText? && !(start == 0 && end == |TextChars(t)|) && end - start < 8 ==>
      var y := SubSequence(t.rope, start, end);
      (y.Err? ==> res == Err(y.error)) &&
      (y.Ok? ==> (res.Ok? <==> Length(r) + Length(y.value) <= INT_MAX) &&
                 (res.Ok? ==> Valid(res.value) && Content(res.value) == Content(r) + Content(y.value)))
  {
    var s :- WrapRange(t, start, end);
    Concatenate(r, s)
  }

  /**
   * A short range of a rope argument is that rope's `subSequence`: out of
   * range, a concatenation argument refuses it with IllegalArgument and a
   * repeated-character leaf hands back the characters it repeats.
   */
  lemma AppendRangeAsksTheArgument()
    ensures var pair := Concat(FlatString("ab"), FlatString("cd"));
      Valid(pair) && KotlinAppendRange(FlatString("x"), RopeText(pair), -1, 2) == Err(IllegalArgument)
    ensures var zs := FlatSeq(CS.Repeated('z', 10));
      var res := KotlinAppendRange(FlatString("x"), RopeText(zs), -3, 2);
      Valid(zs) && res.Ok? && Content(res.value) == "xzzzzz"
  {
    var pair := Concat(FlatString("ab"), FlatString("cd"));
    assert Valid(pair);
    var zs := FlatSeq(CS.Repeated('z', 10));
    assert SubSequence(zs, -3, 2) == Ok(FlatSeq(CS.Repeated('z', 5)));
    assert CS.Chars(CS.Repeated('z', 5)) == "zzzzz";
  }

  /**
   * The Java `append(csq, start, end)`: the range is taken from
   * `build(csq)`, so a rope argument answers with its own `subSequence`.
   */
  function JavaAppendRange(r: Rope, t: Text, start: int, end: int): (res: Result<Rope>)
    requires Valid(r) && ValidText(t) && Sound(SubSequence(Of(t), start, end))
    ensures 0 <= start <= end <= |TextChars(t)| ==>
      (res.Ok? <==> Length(r) + (end - start) <= INT_MAX) &&
      (res.Ok? ==> Valid(res.value) && Content(res.value) == Content(r) + TextChars(t)[start..end])
    ensures !(0 <= start <= end <= |TextChars(t)|) && t.SeqText? && !t.cs.Repeated? ==>
      res == Err(IndexOutOfBounds)
    ensures !(0 <= start <= end <= |TextChars(t)|) && t.RopeText? && t.rope.Concat? &&
            (start < 0 || end > |TextChars(t)|) ==>
      res == Err(IllegalArgument)
  {
    var s :- SubSequence(Of(t), start, end);
    Concatenate(r, s)
  }

  /**
   * The Kotlin `delete(start, end)`: nothing to delete when `start == end`;
   * otherwise what is before `start` followed by what is from `end` on, the
   * second part wrapped in a new leaf. `end` is exclusive; with `end <
   * start` the part between them is kept twice.
   */
  function KotlinDelete(r: Rope, start: int, end: int): (res: Result<Rope>)
    requires Valid(r) && Sound(SubSequence(r, 0, start)) && Sound(SubSequence(r, end, Length(r)))
    ensures start == end ==> res == Ok(r)
    ensures 0 <= start <= end <= Length(r) ==>
      res.Ok? && Valid(res.value) && Content(res.value) == Content(r)[..start] + Content(r)[end..]
    ensures 0 <= end < start <= Length(r) ==>
      (res.Ok? <==> start + (Length(r) - end) <= INT_MAX) &&
      (res.Ok? ==> Valid(res.value) && Content(res.value) == Content(r)[..start] + Content(r)[end..])
    ensures r.Concat? && start != end && start > Length(r) ==> res == Err(IllegalArgument)
    ensures r.Concat? && start != end && 0 <= start <= Length(r) && end < 0 ==> res == Err(IllegalArgument)
  {
    LengthBounds(r);
    if start == end then Ok(r)
    else
      var a :- SubSequence(r, 0, start);
      var b :- SubSequence(r, end, Length(r));
      KotlinAppend(a, RopeText(b))
  }

  /** The Java `delete(start, end)`: the same, with the second part joined as it is. */
  function JavaDelete(r: Rope, start: int, end: int): (res: Result<Rope>)
    requires Valid(r) && Sound(SubSequence(r, 0, start)) && Sound(SubSequence(r, end, Length(r)))
    ensures start == end ==> res == Ok(r)
    ensures 0 <= start <= end <= Length(r) ==>
      res.Ok? && Valid(res.value) && Content(res.value) == Content(r)[..start] + Content(r)[end..]
    ensures 0 <= end < start <= Length(r) ==>
      (res.Ok? <==> start + (Length(r) - end) <= INT_MAX) &&
      (res.Ok? ==> Valid(res.value) && Content(res.value) == Content(r)[..start] + Content(r)[end..])
    ensures r.Concat? && start != end && start > Length(r) ==> res == Err(IllegalArgument)
    ensures r.Concat? && start != end && 0 <= start <= Length(r) && end < 0 ==> res == Err(IllegalArgument)
  {
    LengthBounds(r);
    if start == end then Ok(r)
    else
      var a :- SubSequence(r, 0, start);
      var b :- SubSequence(r, end, Length(r));
      JavaAppend(a, RopeText(b))
  }

  /** Inserting at either end is prepending or appending. */
  lemma InsertAtEnds(t: seq<char>, at: int, u: seq<char>)
    ensures at == 0 ==> t[..at] + u + t[at..] == u + t
    ensures at == |t| ==> t[..at] + u + t[at..] == t + u
  {
    if at == 0 {
      assert t[..at] == [] && t[at..] == t;
    } else if at == |t| {
      assert t[..at] == t && t[at..] == [];
    }
  }

  /** The two halves `insert` splits a rope into at `at`. */
  lemma SplitAt(r: Rope, at: int)
    requires Valid(r) && 0 <= at <= Length(r)
    ensures var a, b := SubSequence(r, 0, at), SubSequence(r, at, Length(r));
      a.Ok? && b.Ok? && Valid(a.value) && Valid(b.value) &&
      Content(a.value) == Content(r)[..at] && Content(b.value) == Content(r)[at..] &&
      Length(a.value) == at && Length(b.value) == Length(r) - at
  {
    var t := Content(r);
    assert t[0..at] == t[..at] && t[at..Length(r)] == t[at..];
  }

  /**
   * The Kotlin `insert(at, chars)`: `at == 0` and `at == length` are
   * answered by an append before the range is checked; any other `at`
   * outside `[0, length]` is refused with IndexOutOfBounds; otherwise the
   * rope is split at `at` and the argument goes between the halves.
   */
  function KotlinInsert(r: Rope, at: int, t: Text): (res: Result<Rope>)
    requires Valid(r) && ValidText(t)
    ensures res.Ok? <==> 0 <= at <= Length(r) && Length(r) + |TextChars(t)| <= INT_MAX
    ensures !(0 <= at <= Length(r)) ==> res == Err(IndexOutOfBounds)
    ensures 0 <= at <= Length(r) && res.Err? ==> res.error == IllegalArgument
    ensures res.Ok? ==>
      Valid(res.value) && Content(res.value) == Content(r)[..at] + TextChars(t) + Content(r)[at..]
  {
    LengthBounds(r);
    InsertAtEnds(Content(r), at, TextChars(t));
    var s := Of(t);
    if at == 0 then
      KotlinAppend(s, RopeText(r))
    else if at == Length(r) then
      KotlinAppend(r, RopeText(s))
    else if at < 0 || at > Length(r) then Err(IndexOutOfBounds)
    else
      SplitAt(r, at);
      var a := SubSequence(r, 0, at).value;
      var b := SubSequence(r, at, Length(r)).value;
      match KotlinAppend(a, RopeText(s))
      case Err(e) => Err(e)
      case Ok(ab) => KotlinAppend(ab, RopeText(b))
  }

  /** A `CharSequence` argument that may be null: a null one stands for the `String` "null". */
  function OrNull(t: Option<Text>): (a: Text)
    requires t.Some? ==> ValidText(t.value)
    ensures ValidText(a) && TextChars(a) == if t.Some? then TextChars(t.value) else "null"
  {
    if t.Some? then t.value else SeqText(CS.JString("null"))
  }

  /**
   * The Java `insert(dstOffset, s)`: the same steps with `build` and the
   * Java `append`; a null argument (`None`) inserts the four characters
   * of "null".
   */
  function JavaInsert(r: Rope, at: int, t: Option<Text>): (res: Result<Rope>)
    requires Valid(r) && (t.Some? ==> ValidText(t.value))
    ensures var chars := if t.Some? then TextChars(t.value) else "null";
      (res.Ok? <==> 0 <= at <= Length(r) && Length(r) + |chars| <= INT_MAX) &&
      (res.Ok? ==> Valid(res.value) && Content(res.value) == Content(r)[..at] + chars + Content(r)[at..])
    ensures !(0 <= at <= Length(r)) ==> res == Err(IndexOutOfBounds)
    ensures 0 <= at <= Length(r) && res.Err? ==> res.error == IllegalArgument
  {
    LengthBounds(r);
    InsertAtEnds(Content(r), at, TextChars(OrNull(t)));
    var s := Of(OrNull(t));
    if at == 0 then
      JavaAppend(s, RopeText(r))
    else if at == Length(r) then
      JavaAppend(r, RopeText(s))
    else if at < 0 || at > Length(r) then Err(IndexOutOfBounds)
    else
      SplitAt(r, at);
      var a := SubSequence(r, 0, at).value;
      var b := SubSequence(r, at, Length(r)).value;
      match JavaAppend(a, RopeText(s))
      case Err(e) => Err(e)
      case Ok(ab) => JavaAppend(ab, RopeText(b))
  }

  /** Deleting a range and inserting the deleted part back at its start gives the characters back. */
  lemma DeleteThenInsert(r: Rope, start: int, end: int)
    requires Valid(r) && 0 <= start <= end <= Length(r)
    ensures KotlinDelete(r, start, end).Ok? && SubSequence(r, start, end).Ok?
    ensures var back := KotlinInsert(KotlinDelete(r, start, end).value, start, RopeText(SubSequence(r, start, end).value));
      back.Ok? && Content(back.value) == Content(r)
  {
    var c := Content(r);
    LengthBounds(r);
    var d := KotlinDelete(r, start, end);
    var p := SubSequence(r, start, end);
    assert d.Ok? && Content(d.value) == c[..start] + c[end..];
    assert p.Ok? && Content(p.value) == c[start..end];
    InsertBetween(d.value, p.value, c[..start], c[end..], start);
    SplitThree(c, start, end);
  }

  lemma InsertBetween(d: Rope, p: Rope, a: seq<char>, b: seq<char>, at: int)
    requires Valid(d) && Valid(p) && Content(d) == a + b && |a| == at && at + Length(p) + |b| <= INT_MAX
    ensures var back := KotlinInsert(d, at, RopeText(p));
      back.Ok? && Content(back.value) == a + Content(p) + b
  {
    assert Content(d)[..at] == a && Content(d)[at..] == b;
  }

  lemma SplitThree(c: seq<char>, i: int, j: int)
    requires 0 <= i <= j <= |c|
    ensures c[..i] + c[i..j] + c[j..] == c
  {
  }

  /** The characters `padStart` / `padEnd` add: `n` copies of `c`. */
  function Padding(c: char, n: nat): (s: seq<char>)
    ensures |s| == n && forall k :: 0 <= k < n ==> s[k] == c
  {
    seq(n, _ => c)
  }

  /**
   * The number of characters `padStart` / `padEnd` add, `toLength - length`
   * computed in 32-bit `Int` arithmetic: when the subtraction goes below
   * `Int.MIN_VALUE` it wraps to a positive count.
   */
  function ToPad(r: Rope, toLength: int): (p: int)
    requires Valid(r) && InIntRange(toLength)
    ensures InIntRange(toLength - Length(r)) ==> p == toLength - Length(r)
    ensures !InIntRange(toLength - Length(r)) ==> p == toLength - Length(r) + TWO_32 && p + Length(r) > INT_MAX
  {
    LengthBounds(r);
    Int32(toLength - Length(r))
  }

  /**
   * The rope with a repeated-character leaf of `n` copies of `padChar`
   * before it (`atStart`) or after it, joined by `concatenate`, which
   * refuses a result longer than `Int.MAX_VALUE` with IllegalArgument.
   */
  function WithPad(r: Rope, n: int, padChar: char, atStart: bool): (res: Result<Rope>)
    requires Valid(r) && 1 <= n <= INT_MAX
    ensures res.Ok? <==> Length(r) + n <= INT_MAX
    ensures res.Err? ==> res.error == IllegalArgument
    ensures res.Ok? ==> Valid(res.value)
    ensures res.Ok? && atStart ==> Content(res.value) == Padding(padChar, n) + Content(r)
    ensures res.Ok? && !atStart ==> Content(res.value) == Content(r) + Padding(padChar, n)
  {
    var pad := FlatSeq(CS.Repeated(padChar, n));
    assert CS.Chars(pad.cs) == Padding(padChar, n);
    if atStart then Concatenate(pad, r) else Concatenate(r, pad)
  }

  /**
   * `padStart(toLength, padChar)`: the rope as it is when there is nothing
   * to add, else a repeated-character leaf before it. A rope already
   * `toLength` long or longer comes back unchanged, except when the
   * subtraction wraps; then the pad is so long that `concatenate` refuses
   * it with IllegalArgument.
   */
  function PadStart(r: Rope, toLength: int, padChar: char): (res: Result<Rope>)
    requires Valid(r) && InIntRange(toLength)
    ensures toLength <= Length(r) && InIntRange(toLength - Length(r)) ==> res == Ok(r)
    ensures toLength > Length(r) ==>
      res.Ok? && Valid(res.value) && Content(res.value) == Padding(padChar, toLength - Length(r)) + Content(r)
    ensures !InIntRange(toLength - Length(r)) ==> res == Err(IllegalArgument)
  {
    LengthBounds(r);
    var toPad := ToPad(r, toLength);
    if toPad < 1 then Ok(r) else WithPad(r, toPad, padChar, true)
  }


  /** `padEnd(toLength, padChar)`: the same, with the pad after the rope. */
  function PadEnd(r: Rope, toLength: int, padChar: char): (res: Result<Rope>)
    requires Valid(r) && InIntRange(toLength)
    ensures toLength <= Length(r) && InIntRange(toLength - Length(r)) ==> res == Ok(r)
    ensures toLength > Length(r) ==>
      res.Ok? && Valid(res.value) && Content(res.value) == Content(r) + Padding(padChar, toLength - Length(r))
    ensures !InIntRange(toLength - Length(r)) ==> res == Err(IllegalArgument)
  {
    LengthBounds(r);
    var toPad := ToPad(r, toLength);
    if toPad < 1 then Ok(r) else WithPad(r, toPad, padChar, false)
  }

  /**
   * `"01"` appended to itself `n` times over, the first refusal ending the
   * doubling: 29 rounds reach 2^30 characters and the next is refused.
   */
  function SelfAppended(n: nat): (r: Result<Rope>)
    ensures r.Ok? <==> n <= 29
    ensures r.Ok? ==> Valid(r.value) && Length(r.value) == Pow2(n + 1)
    ensures r.Err? ==> r.error == IllegalArgument
  {
    if n == 0 then Ok(FlatString("01"))
    else
      match SelfAppended(n - 1)
      case Err(e) => Err(e)
      case Ok(x) => DoublingFits(n); KotlinAppend(x, RopeText(x))
  }

  /** Doubling 2^n characters fits an `Int` up to n = 29 and overflows at 30. */
  lemma DoublingFits(n: nat)
    ensures n <= 29 ==> Pow2(n) + Pow2(n) <= INT_MAX
    ensures n == 30 ==> Pow2(n) + Pow2(n) > INT_MAX
  {
    Pow2Of31();
    assert Pow2(31) == 4 * Pow2(29);
    if n <= 29 {
      Pow2Monotone(n, 29);
    }
  }

  lemma {:induction false} Pow2Monotone(a: nat, b: nat)
    requires a <= b
    ensures Pow2(a) <= Pow2(b)
    decreases b
  {
    if a < b {
      Pow2Monotone(a, b - 1);
    }
  }
}
