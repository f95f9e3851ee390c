/**
 * The character sequences a FlatCharSequenceRope can borrow: a `String`,
 * any other `CharSequence` (taken as the characters it held when it was
 * borrowed), and the constant-character `RepeatedCharacterSequence` that
 * padding builds.
 */
module CharSequences {
  import opened JavaLang

  datatype CharSeq =
    | JString(s: seq<char>)
    | Borrowed(s: seq<char>)
    | Repeated(character: char, repeat: int)

  /** `length`: a repeated sequence reports its repeat count, whatever its sign. */
  function Length(cs: CharSeq): int {
    match cs
    case JString(s) => |s|
    case Borrowed(s) => |s|
    case Repeated(_, n) => n
  }

  /** A sequence that a JVM `Int` length can describe. */
  predicate Valid(cs: CharSeq) {
    0 <= Length(cs) <= INT_MAX
  }

  /** The characters of a valid sequence, in order. */
  function Chars(cs: CharSeq): (r: seq<char>)
    requires Valid(cs)
    ensures |r| == Length(cs)
  {
    match cs
    case JString(s) => s
    case Borrowed(s) => s
    case Repeated(c, n) => seq(n, _ => c)
  }

  /** `get(index)` / `charAt(index)`. */
  function Get(cs: CharSeq, i: int): (r: Result<char>)
    ensures Valid(cs) && 0 <= i < Length(cs) ==> r == Ok(Chars(cs)[i])
    ensures cs.Repeated? ==> r == Ok(cs.character)
    ensures !cs.Repeated? && !(0 <= i < Length(cs)) ==> r == Err(IndexOutOfBounds)
  {
    match cs
    case JString(s) => if 0 <= i < |s| then Ok(s[i]) else Err(IndexOutOfBounds)
    case Borrowed(s) => if 0 <= i < |s| then Ok(s[i]) else Err(IndexOutOfBounds)
    case Repeated(c, _) => Ok(c)
  }

  /** `subSequence(start, end)`: a repeated sequence never checks its bounds. */
  function SubSequence(cs: CharSeq, start: int, end: int): (r: Result<CharSeq>)
    ensures Valid(cs) && 0 <= start <= end <= Length(cs) ==>
      r.Ok? && Valid(r.value) && Chars(r.value) == Chars(cs)[start..end]
    ensures cs.Repeated? ==>
      r.Ok? && r.value.Repeated? && r.value.character == cs.character && Length(r.value) == end - start
    ensures !cs.Repeated? ==>
      (r.Ok? <==> 0 <= start <= end <= Length(cs)) && (r.Err? ==> r.error == IndexOutOfBounds)
    ensures r.Ok? ==> (cs.JString? <==> r.value.JString?)
  {
    match cs
    case JString(s) =>
      if 0 <= start <= end <= |s| then Ok(JString(s[start..end])) else Err(IndexOutOfBounds)
    case Borrowed(s) =>
      if 0 <= start <= end <= |s| then Ok(Borrowed(s[start..end])) else Err(IndexOutOfBounds)
    case Repeated(c, _) => Ok(Repeated(c, end - start))
  }

  /** `toString()`: a repeated sequence allocates `CharArray(repeat)` and fills it. */
  function ToString(cs: CharSeq): (r: Result<seq<char>>)
    ensures Valid(cs) ==> r == Ok(Chars(cs))
    ensures cs.Repeated? && cs.repeat >= 0 ==>
      r.Ok? && |r.value| == cs.repeat && forall k :: 0 <= k < |r.value| ==> r.value[k] == cs.character
    ensures cs.Repeated? && cs.repeat < 0 ==> r == Err(NegativeArraySize)
  {
    match cs
    case JString(s) => Ok(s)
    case Borrowed(s) => Ok(s)
    case Repeated(c, n) => if n < 0 then Err(NegativeArraySize) else Ok(seq(n, _ => c))
  }
}
