/**
 * Four places where the code does not do what it evidently means to do,
 * each modelled as written, with an input that shows the difference, next
 * to the intended behaviour the rest of the model follows.
 *
 * 1. The Java `FlatCharArrayRope.indexOf(sequence, fromIndex)` shifts its
 *    window by the bad-character entry of the text character where the
 *    comparison failed, not of the character under the window's last
 *    position, and so can jump over an occurrence. `AbstractRope` (Kotlin
 *    and Java), modelled by `Searching.IndexOfSequence`, uses the last one.
 * 2. The Kotlin `ReverseRope.write(out, offset, length)` bounds the range
 *    with `offset + length > length`, where `length` is the parameter, so
 *    every offset but zero is refused. The Java `ReverseRope` compares with
 *    the rope's length, as `RopeOps.Written` does.
 * 3. `padStart` / `padEnd` compute `toLength - length` in 32-bit
 *    arithmetic; for a `toLength` near `Int.MIN_VALUE` the count wraps to a
 *    huge positive number and `concatenate` refuses it, where the contract
 *    promises the rope back unmodified.
 * 4. `trimStart` / `trimEnd` promise a rope with all leading (trailing)
 *    white space removed, but their scans stop on the last character, so
 *    every non-empty all-blank rope keeps one of its characters.
 */
module Findings {
  import opened JavaLang
  import opened Ropes
  import opened Concatenating
  import opened RopeOps
  import opened Searching
  import opened Edits
  import opened Trimming
  import CS = CharSequences

  // ---------------------------------------------------------------------
  // 1. The bad-character shift of FlatCharArrayRope.java
  // ---------------------------------------------------------------------

  /**
   * The search loop of `FlatCharArrayRope.indexOf(sequence, fromIndex)`
   * for a window ending at `j`: -1 once the window has left the array,
   * else the comparison of the window from its end.
   */
  function ScanAsWritten(t: seq<char>, p: seq<char>, j: int): (res: Result<int>)
    requires 2 <= |p|
    ensures res.Ok? && res.value != -1 ==> Matches(t, p, res.value)
    decreases |t| - j, |p|
  {
    if j >= |t| then Ok(-1) else WindowAsWritten(t, p, j, j, |p| - 1)
  }

  /**
   * One step of the comparison: `p[y]` against the array at `x`, the
   * needle's characters after `y` having matched those after `x`. A
   * mismatch moves the window on by the bad-character entry of `t[x]`; a
   * match down to `y == 0` is an occurrence at `x`; an `x` below zero
   * (only a negative `fromIndex` gives one) reads outside the array.
   */
  function WindowAsWritten(t: seq<char>, p: seq<char>, j: int, x: int, y: int): (res: Result<int>)
    requires 2 <= |p| && j < |t| && 0 <= y < |p| && x == j - (|p| - 1 - y)
    requires forall i :: y < i < |p| && 0 <= x + i - y ==> t[x + i - y] == p[i]
    ensures res.Ok? && res.value != -1 ==> Matches(t, p, res.value)
    decreases |t| - j, y
  {
    if x < 0 then Err(IndexOutOfBounds)
    else if p[y] != t[x] then ScanAsWritten(t, p, j + Shift(p, Low8(t[x]), |p| - 1))
    else if y == 0 then
      MatchAt(t, p, x);
      Ok(x)
    else WindowAsWritten(t, p, j, x - 1, y - 1)
  }

  /**
   * `FlatCharArrayRope.indexOf(sequence, fromIndex)` as written: -1 for an
   * empty needle, `indexOf(ch, fromIndex)` for a single character, else
   * the search from the window ending at `fromIndex + length - 1`.
   */
  function FlatIndexOfAsWritten(t: seq<char>, p: seq<char>, from: int): (res: Result<int>)
    ensures |p| == 0 ==> res == Ok(-1)
    ensures |p| == 1 ==> res == if 0 <= from < |t| then Ok(FirstIndexOf(t, p[0], from)) else Err(IndexOutOfBounds)
    ensures 2 <= |p| && res.Ok? && res.value != -1 ==> Matches(t, p, res.value)
  {
    if |p| == 0 then Ok(-1)
    else if |p| == 1 then
      if 0 <= from < |t| then Ok(FirstIndexOf(t, p[0], from)) else Err(IndexOutOfBounds)
    else ScanAsWritten(t, p, from + |p| - 1)
  }

  /**
   * In "abb" the needle "bb" stands at 1, but the search compares the
   * window "ab", fails at the 'a', shifts by the entry of 'a' (the full
   * needle length) and leaves the array without finding it.
   */
  lemma FlatSearchSkipsOccurrence()
    ensures FlatIndexOfAsWritten("abb", "bb", 0) == Ok(-1)
    ensures FirstOccurrence("abb", "bb", 0) == 1
  {
    assert Shift("bb", Low8('a'), 1) == 2;
    assert "abb"[1..3] == "bb";
  }

  // ---------------------------------------------------------------------
  // 2. The range check of ReverseRope.kt's write
  // ---------------------------------------------------------------------

  /** `get(j)` for `j` from `from` on, `n` times, in order; the first failure ends it. */
  function GetEach(r: Rope, from: int, n: int): (res: Result<seq<char>>)
    requires Valid(r)
    ensures 0 <= from && from + n <= Length(r) ==>
      res == Ok(if n <= 0 then [] else Content(r)[from..from + n])
    decreases n
  {
    if n <= 0 then Ok([])
    else
      SliceCons(Content(r), from, from + n);
      match Get(r, from)
      case Err(e) => Err(e)
      case Ok(c) =>
        match GetEach(r, from + 1, n - 1)
        case Err(e) => Err(e)
        case Ok(rest) => Ok([c] + rest)
  }

  /** A non-empty slice is its first character followed by the rest. */
  lemma SliceCons(t: seq<char>, i: int, j: int)
    ensures 0 <= i < j <= |t| ==> t[i..j] == [t[i]] + t[i + 1..j]
  {
    if 0 <= i < j <= |t| {
      assert t[i..j] == [t[i]] + t[i + 1..j];
    }
  }

  /**
   * The Kotlin `ReverseRope.write(out, offset, length)` as written: the
   * guard's `length` is the parameter, which shadows the rope's length, so
   * it refuses every offset but zero and leaves a range that runs past the
   * end to the `get` calls.
   */
  function ReverseWriteAsWritten(r: Rope, offset: int, length: int): (res: Result<seq<char>>)
    requires Valid(r) && r.Reversed?
    ensures offset != 0 ==> res == Err(IndexOutOfBounds)
    ensures offset == 0 && length <= Length(r) ==>
      res == Ok(if length <= 0 then [] else Content(r)[..length])
  {
    if offset < 0 || offset + length > length then Err(IndexOutOfBounds)
    else GetEach(r, offset, length)
  }

  /**
   * Writing one character from offset 1 of the reversal of "abc" is
   * refused, where the Java `ReverseRope` writes the 'b'.
   */
  lemma ReverseWriteRefusesOffset()
    ensures Valid(Reversed(FlatString("abc")))
    ensures ReverseWriteAsWritten(Reversed(FlatString("abc")), 1, 1) == Err(IndexOutOfBounds)
    ensures Written(Reversed(FlatString("abc")), 1, 1) == Ok("b")
  {
    var r := Reversed(FlatString("abc"));
    assert Content(r)[1] == 'b';
    assert Content(r)[1..2] == "b";
  }

  // ---------------------------------------------------------------------
  // 3. The wrapped pad count of padStart / padEnd
  // ---------------------------------------------------------------------

  /**
   * `padStart(toLength, padChar)` as its contract states it: the rope
   * unmodified when it is already `toLength` long or longer, else
   * `toLength - length` copies of `padChar` before it. It never fails.
   */
  function PadStartIntended(r: Rope, toLength: int, padChar: char): (res: Rope)
    requires Valid(r) && InIntRange(toLength)
    ensures Valid(res)
    ensures toLength <= Length(r) ==> res == r
    ensures toLength > Length(r) ==> Content(res) == Padding(padChar, toLength - Length(r)) + Content(r)
  {
    LengthBounds(r);
    if toLength <= Length(r) then r else WithPad(r, toLength - Length(r), padChar, true).value
  }

  /** `padEnd(toLength, padChar)` as its contract states it: the same, with the pad after the rope. */
  function PadEndIntended(r: Rope, toLength: int, padChar: char): (res: Rope)
    requires Valid(r) && InIntRange(toLength)
    ensures Valid(res)
    ensures toLength <= Length(r) ==> res == r
    ensures toLength > Length(r) ==> Content(res) == Content(r) + Padding(padChar, toLength - Length(r))
  {
    LengthBounds(r);
    if toLength <= Length(r) then r else WithPad(r, toLength - Length(r), padChar, false).value
  }

  /**
   * Padding a one-character rope to `Int.MIN_VALUE` wraps the count to
   * `Int.MAX_VALUE` and is refused, where the contract returns the rope.
   */
  lemma PadToMinValueRefused()
    ensures PadStart(FlatString("a"), INT_MIN, ' ') == Err(IllegalArgument)
    ensures PadEnd(FlatString("a"), INT_MIN, ' ') == Err(IllegalArgument)
    ensures PadStartIntended(FlatString("a"), INT_MIN, ' ') == FlatString("a")
    ensures PadEndIntended(FlatString("a"), INT_MIN, ' ') == FlatString("a")
  {
  }

  // ---------------------------------------------------------------------
  // 4. An all-blank rope under trimStart / trimEnd
  // ---------------------------------------------------------------------

  /** `trimStart()` as its contract states it: every leading blank removed. */
  function TrimStartIntended(ws: char -> bool, t: seq<char>): (s: seq<char>)
    ensures |s| <= |t| && s == t[|t| - |s|..]
    ensures forall i :: 0 <= i < |t| - |s| ==> Blank(ws, t[i])
    ensures |s| == 0 || !Blank(ws, s[0])
  {
    LeadingBlanksSpan(ws, t);
    t[LeadingBlanks(ws, t)..]
  }

  /** `trimEnd()` as its contract states it: every trailing blank removed. */
  function TrimEndIntended(ws: char -> bool, t: seq<char>): (s: seq<char>)
    ensures |s| <= |t| && s == t[..|s|]
    ensures forall i :: |s| <= i < |t| ==> Blank(ws, t[i])
    ensures |s| == 0 || !Blank(ws, s[|s| - 1])
  {
    TrailingBlanksSpan(ws, t);
    t[..|t| - TrailingBlanks(ws, t)]
  }

  /** Where some character is not blank, the trims as written are the intended ones. */
  lemma TrimsAgreeUnlessAllBlank(ws: char -> bool, t: seq<char>, x: int)
    requires 0 <= x < |t| && !Blank(ws, t[x])
    ensures TrimStartChars(ws, t) == TrimStartIntended(ws, t)
    ensures TrimEndChars(ws, t) == TrimEndIntended(ws, t)
  {
    LeadingBlanksSpan(ws, t);
    TrailingBlanksSpan(ws, t);
  }

  /** Two spaces trimmed either way keep one space, where the contract leaves none. */
  lemma TrimKeepsOneBlank(ws: char -> bool)
    ensures TrimStartChars(ws, "  ") == " " && TrimEndChars(ws, "  ") == " "
    ensures TrimStartIntended(ws, "  ") == [] && TrimEndIntended(ws, "  ") == []
  {
  }
}
