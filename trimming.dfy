/**
 * `trimStart`, `trimEnd` and `trim` of `AbstractRope`. A character is blank
 * when its code is at most 0x20 or `Character.isWhitespace` holds for it;
 * that JDK predicate is a parameter here. The scans stop at the first
 * character that is not blank, and an all-blank rope keeps one character:
 * its last for `trimStart`, its first for `trimEnd`.
 */
module Trimming {
  import opened JavaLang
  import opened Ropes
  import opened RopeOps

  /** Trimmed away: a control character, the space, or what `isWhitespace` calls white space. */
  predicate Blank(isWhitespace: char -> bool, c: char) {
    c as int <= 0x20 || isWhitespace(c)
  }

  /** Every character of `t` is blank (`AllBlankMeans`): the scans run through all of it. */
  predicate AllBlank(ws: char -> bool, t: seq<char>) {
    LeadingBlanks(ws, t) == |t|
  }

  /** How many characters at the front of `t` are blank. */
  function LeadingBlanks(ws: char -> bool, t: seq<char>): (k: nat)
    ensures k <= |t|
    decreases |t|
  {
    if |t| == 0 || !Blank(ws, t[0]) then 0 else 1 + LeadingBlanks(ws, t[1..])
  }

  /** The leading count covers only blanks and stops at the first character that is not blank. */
  lemma {:induction false} LeadingBlanksSpan(ws: char -> bool, t: seq<char>)
    ensures var k := LeadingBlanks(ws, t);
      (forall i :: 0 <= i < k ==> Blank(ws, t[i])) && (k < |t| ==> !Blank(ws, t[k]))
    decreases |t|
  {
    if |t| != 0 && Blank(ws, t[0]) {
      var u := t[1..];
      LeadingBlanksSpan(ws, u);
      var k := LeadingBlanks(ws, t);
      forall i | 0 < i < k
        ensures Blank(ws, t[i])
      {
        assert t[i] == u[i - 1];
      }
      if k < |t| {
        assert t[k] == u[k - 1];
      }
    }
  }

  /** How many characters at the back of `t` are blank. */
  function TrailingBlanks(ws: char -> bool, t: seq<char>): (k: nat)
    ensures k <= |t|
    decreases |t|
  {
    if |t| == 0 || !Blank(ws, t[|t| - 1]) then 0 else 1 + TrailingBlanks(ws, t[..|t| - 1])
  }

  /** The trailing count covers only blanks and stops at the last character that is not blank. */
  lemma {:induction false} TrailingBlanksSpan(ws: char -> bool, t: seq<char>)
    ensures var k := TrailingBlanks(ws, t);
      (forall i :: |t| - k <= i < |t| ==> Blank(ws, t[i])) && (k < |t| ==> !Blank(ws, t[|t| - 1 - k]))
    decreases |t|
  {
    if |t| != 0 && Blank(ws, t[|t| - 1]) {
      var u := t[..|t| - 1];
      TrailingBlanksSpan(ws, u);
      var k := TrailingBlanks(ws, t);
      forall i | |t| - k <= i < |t| - 1
        ensures Blank(ws, t[i])
      {
        assert t[i] == u[i];
      }
      if k < |t| {
        assert t[|t| - 1 - k] == u[|u| - 1 - (k - 1)];
      }
    }
  }

  /** All blank: every character is, and counting from either end reaches the other. */
  lemma AllBlankMeans(ws: char -> bool, t: seq<char>)
    ensures AllBlank(ws, t) <==> forall i :: 0 <= i < |t| ==> Blank(ws, t[i])
    ensures AllBlank(ws, t) <==> TrailingBlanks(ws, t) == |t|
  {
    LeadingBlanksSpan(ws, t);
    TrailingBlanksSpan(ws, t);
  }

  /**
   * What `trimStart` leaves: a suffix of `t` cut only through blanks, which
   * begins with a character that is not blank unless it is one character
   * long (the last of an all-blank `t`); a `t` that needs no cut is kept.
   */
  function TrimStartChars(ws: char -> bool, t: seq<char>): (s: seq<char>)
    ensures |s| <= |t| && s == t[|t| - |s|..]
    ensures forall i :: 0 <= i < |t| - |s| ==> Blank(ws, t[i])
    ensures |t| > 0 ==> |s| > 0
    ensures |s| <= 1 || !Blank(ws, s[0])
    ensures |t| <= 1 || !Blank(ws, t[0]) ==> s == t
  {
    LeadingBlanksSpan(ws, t);
    var k := LeadingBlanks(ws, t);
    if k < |t| then t[k..] else if |t| == 0 then t else t[|t| - 1..]
  }

  /**
   * What `trimEnd` leaves: a prefix of `t` cut only through blanks, which
   * ends with a character that is not blank unless it is one character long
   * (the first of an all-blank `t`); a `t` that needs no cut is kept.
   */
  function TrimEndChars(ws: char -> bool, t: seq<char>): (s: seq<char>)
    ensures |s| <= |t| && s == t[..|s|]
    ensures forall i :: |s| <= i < |t| ==> Blank(ws, t[i])
    ensures |t| > 0 ==> |s| > 0
    ensures |s| <= 1 || !Blank(ws, s[|s| - 1])
    ensures |t| <= 1 || !Blank(ws, t[|t| - 1]) ==> s == t
  {
    TrailingBlanksSpan(ws, t);
    var k := TrailingBlanks(ws, t);
    if k < |t| then t[..|t| - k] else if |t| == 0 then t else t[..1]
  }

  /**
   * `trimStart()`: cuts where the forward scan stops; when it stops at 0
   * the rope itself is returned. The scan is a `for` loop over the rope's
   * walk: when every character is blank it asks the walk for one more, and
   * a walk that overruns the end throws IllegalArgument there.
   */
  method TrimStart(ws: char -> bool, r: Rope) returns (res: Result<Rope>)
    requires Valid(r)
    ensures res.Err? <==> AllBlank(ws, Content(r)) && OverrunsEnd(r, 0)
    ensures res.Err? ==> res.error == IllegalArgument
    ensures res.Ok? ==> Valid(res.value) && Content(res.value) == TrimStartChars(ws, Content(r))
    ensures res.Ok? && (Length(r) <= 1 || !Blank(ws, Content(r)[0])) ==> res.value == r
  {
    var t := Content(r);
    var index, stopped := StartIndex(ws, t);
    if !stopped && OverrunsEnd(r, 0) {
      return Err(IllegalArgument);
    }
    if index <= 0 {
      return Ok(r);
    }
    var sub := SubSequence(r, index, |t|);
    SliceToEnd(t, index);
    res := Ok(sub.value);
  }

  /** A slice that runs to the end is the suffix. */
  lemma SliceToEnd(t: seq<char>, a: int)
    requires 0 <= a <= |t|
    ensures t[a..|t|] == t[a..]
  {
  }

  /**
   * The scan of `trimStart()`: counts through the characters up to the
   * first that is not blank, or up to the last one when all are blank.
   */
  method StartIndex(ws: char -> bool, t: seq<char>) returns (index: int, stopped: bool)
    ensures -1 <= index < |t| && (|t| > 0 ==> 0 <= index)
    ensures TrimStartChars(ws, t) == if index <= 0 then t else t[index..]
    ensures index <= 0 <==> |t| <= 1 || !Blank(ws, t[0])
    ensures stopped <==> !AllBlank(ws, t)
  {
    index := -1;
    stopped := false;
    while index + 1 < |t|
      invariant -1 <= index < |t|
      invariant forall i :: 0 <= i <= index ==> Blank(ws, t[i])
    {
      index := index + 1;
      if !Blank(ws, t[index]) {
        stopped := true;
        break;
      }
    }
    AllBlankMeans(ws, t);
    StartCut(ws, t, index);
  }

  /**
   * `trimEnd()`: cuts where the backward scan stops; when it stops at
   * `length` or above the rope itself is returned. The scan is driven by
   * the reverse walk's `hasNext()`: when every character is blank it asks
   * for one more, and a reverse walk that overruns the start throws
   * IllegalArgument there.
   */
  method TrimEnd(ws: char -> bool, r: Rope) returns (res: Result<Rope>)
    requires Valid(r)
    ensures res.Err? <==> AllBlank(ws, Content(r)) && OverrunsStart(r, 0)
    ensures res.Err? ==> res.error == IllegalArgument
    ensures res.Ok? ==> Valid(res.value) && Content(res.value) == TrimEndChars(ws, Content(r))
    ensures res.Ok? && (Length(r) <= 1 || !Blank(ws, Content(r)[Length(r) - 1])) ==> res.value == r
  {
    var t := Content(r);
    var index, stopped := EndIndex(ws, t);
    if !stopped && OverrunsStart(r, 0) {
      return Err(IllegalArgument);
    }
    if index >= |t| {
      return Ok(r);
    }
    var sub := SubSequence(r, 0, index);
    res := Ok(sub.value);
  }

  /**
   * The scan of `trimEnd()`: counts back from `length + 1` over the
   * characters from the last one to the first that is not blank, or to the
   * first one when all are blank.
   */
  method EndIndex(ws: char -> bool, t: seq<char>) returns (index: int, stopped: bool)
    ensures 0 <= index <= |t| + 1
    ensures TrimEndChars(ws, t) == if index >= |t| then t else t[..index]
    ensures index >= |t| <==> |t| <= 1 || !Blank(ws, t[|t| - 1])
    ensures stopped <==> !AllBlank(ws, t)
  {
    index := |t| + 1;
    stopped := false;
    var i := 0;
    while i < |t|
      invariant 0 <= i <= |t| && index == |t| + 1 - i
      invariant forall q :: |t| - i <= q < |t| ==> Blank(ws, t[q])
    {
      var c := t[|t| - 1 - i];
      index := index - 1;
      if !Blank(ws, c) {
        stopped := true;
        break;
      }
      i := i + 1;
    }
    AllBlankMeans(ws, t);
    EndCut(ws, t, i);
  }

  /** Where the forward scan stops, `TrimStartChars` cuts. */
  lemma StartCut(ws: char -> bool, t: seq<char>, index: int)
    requires -1 <= index < |t| && forall i :: 0 <= i < index ==> Blank(ws, t[i])
    requires index == |t| - 1 || (0 <= index && !Blank(ws, t[index]))
    ensures TrimStartChars(ws, t) == if index <= 0 then t else t[index..]
  {
    if 0 <= index && !Blank(ws, t[index]) {
      LeadingBlanksIs(ws, t, index);
    } else if 0 <= index {
      LeadingBlanksIs(ws, t, |t|);
    }
  }

  /** Where the backward scan stops after `i` blanks, `TrimEndChars` cuts. */
  lemma EndCut(ws: char -> bool, t: seq<char>, i: int)
    requires 0 <= i <= |t| && forall q :: |t| - i <= q < |t| ==> Blank(ws, t[q])
    requires i == |t| || !Blank(ws, t[|t| - 1 - i])
    ensures TrimEndChars(ws, t) == if |t| - i >= |t| then t else if i == |t| then t[..1] else t[..|t| - i]
  {
    TrailingBlanksIs(ws, t, i);
  }

  /**
   * `trim()` = `trimStart().trimEnd()`: either half's IllegalArgument is
   * passed on, and both can only arise on an all-blank rope.
   */
  method Trim(ws: char -> bool, r: Rope) returns (res: Result<Rope>)
    requires Valid(r)
    ensures res.Ok? ==> Valid(res.value) && Content(res.value) == TrimEndChars(ws, TrimStartChars(ws, Content(r)))
    ensures res.Err? ==> res.error == IllegalArgument && AllBlank(ws, Content(r))
    ensures !AllBlank(ws, Content(r)) ==> res.Ok?
    ensures AllBlank(ws, Content(r)) && OverrunsEnd(r, 0) ==> res.Err?
  {
    var s :- TrimStart(ws, r);
    if !AllBlank(ws, Content(r)) {
      TrimStartKeepsNonBlank(ws, Content(r));
    }
    res := TrimEnd(ws, s);
  }

  /** What `trimStart` leaves of a rope that is not all blank is not all blank either. */
  lemma TrimStartKeepsNonBlank(ws: char -> bool, t: seq<char>)
    requires !AllBlank(ws, t)
    ensures !AllBlank(ws, TrimStartChars(ws, t))
  {
    AllBlankMeans(ws, t);
    var i :| 0 <= i < |t| && !Blank(ws, t[i]);
    var s := TrimStartChars(ws, t);
    assert s[i - (|t| - |s|)] == t[i];
    AllBlankMeans(ws, s);
  }

  /** Trimming twice is trimming once. */
  lemma TrimIdempotent(ws: char -> bool, t: seq<char>)
    ensures var u := TrimEndChars(ws, TrimStartChars(ws, t));
      TrimEndChars(ws, TrimStartChars(ws, u)) == u
  {
    var s := TrimStartChars(ws, t);
    var u := TrimEndChars(ws, s);
    if |u| > 1 {
      assert u[0] == s[0];
    }
  }

  /** When some character is not blank, the two cuts are independent: either order keeps the same span. */
  lemma TrimsCommute(ws: char -> bool, t: seq<char>, x: int)
    requires 0 <= x < |t| && !Blank(ws, t[x])
    ensures TrimEndChars(ws, TrimStartChars(ws, t)) == TrimStartChars(ws, TrimEndChars(ws, t))
  {
    var a, b := LeadingBlanks(ws, t), TrailingBlanks(ws, t);
    LeadingBlanksSpan(ws, t);
    TrailingBlanksSpan(ws, t);
    assert a <= x < |t| - b;
    var s, e := TrimStartChars(ws, t), TrimEndChars(ws, t);
    assert s == t[a..] && e == t[..|t| - b];
    SpanOfCuts(ws, t, a, b);
  }

  lemma SpanOfCuts(ws: char -> bool, t: seq<char>, a: nat, b: nat)
    requires a == LeadingBlanks(ws, t) && b == TrailingBlanks(ws, t) && a < |t| - b
    ensures TrimEndChars(ws, t[a..]) == t[a..|t| - b]
    ensures TrimStartChars(ws, t[..|t| - b]) == t[a..|t| - b]
  {
    EndOfSuffix(ws, t, a, b);
    StartOfPrefix(ws, t, a, b);
  }

  lemma EndOfSuffix(ws: char -> bool, t: seq<char>, a: nat, b: nat)
    requires b == TrailingBlanks(ws, t) && a < |t| - b
    ensures TrimEndChars(ws, t[a..]) == t[a..|t| - b]
  {
    TrailingBlanksOfSuffix(ws, t, a);
    TrimEndOfSuffix(ws, t, a, b);
  }

  /** Fewer trailing blanks than characters in a suffix: `TrimEndChars` drops exactly those. */
  lemma TrimEndOfSuffix(ws: char -> bool, t: seq<char>, a: nat, b: nat)
    requires a < |t| - b && b == TrailingBlanks(ws, t[a..])
    ensures TrimEndChars(ws, t[a..]) == t[a..|t| - b]
  {
    var s := t[a..];
    assert TrimEndChars(ws, s) == s[..|s| - b];
    assert s[..|s| - b] == t[a..|t| - b];
  }

  /** A suffix that keeps the blank run at the end and the character before it keeps the count. */
  lemma SuffixBlanks(ws: char -> bool, t: seq<char>, a: nat, b: nat)
    requires b <= |t| && a < |t| - b && (forall i :: |t| - b <= i < |t| ==> Blank(ws, t[i])) && !Blank(ws, t[|t| - 1 - b])
    ensures TrailingBlanks(ws, t[a..]) == b
  {
    var s := t[a..];
    assert s[|s| - 1 - b] == t[|t| - 1 - b];
    forall i | |s| - b <= i < |s|
      ensures Blank(ws, s[i])
    {
      assert s[i] == t[a + i];
    }
    TrailingBlanksIs(ws, s, b);
  }

  /** Dropping characters in front of the last non-blank leaves the trailing blanks alone. */
  lemma TrailingBlanksOfSuffix(ws: char -> bool, t: seq<char>, a: nat)
    requires a < |t| - TrailingBlanks(ws, t)
    ensures TrailingBlanks(ws, t[a..]) == TrailingBlanks(ws, t)
  {
    TrailingBlanksSpan(ws, t);
    SuffixBlanks(ws, t, a, TrailingBlanks(ws, t));
  }

  lemma StartOfPrefix(ws: char -> bool, t: seq<char>, a: nat, b: nat)
    requires a == LeadingBlanks(ws, t) && a < |t| - b
    ensures TrimStartChars(ws, t[..|t| - b]) == t[a..|t| - b]
  {
    var e := t[..|t| - b];
    LeadingBlanksSpan(ws, t);
    assert e[a] == t[a];
    assert forall i :: 0 <= i < a ==> e[i] == t[i];
    LeadingBlanksIs(ws, e, a);
    assert e[a..] == t[a..|t| - b];
  }

  /** `LeadingBlanks` is the one count with blanks before it and a non-blank (or the end) at it. */
  lemma {:induction false} LeadingBlanksIs(ws: char -> bool, t: seq<char>, k: nat)
    requires k <= |t| && (forall i :: 0 <= i < k ==> Blank(ws, t[i])) && (k < |t| ==> !Blank(ws, t[k]))
    ensures LeadingBlanks(ws, t) == k
  {
    LeadingBlanksSpan(ws, t);
  }

  /** `TrailingBlanks` is the one count with blanks after it and a non-blank (or the start) before them. */
  lemma {:induction false} TrailingBlanksIs(ws: char -> bool, t: seq<char>, k: nat)
    requires k <= |t| && (forall i :: |t| - k <= i < |t| ==> Blank(ws, t[i])) && (k < |t| ==> !Blank(ws, t[|t| - 1 - k]))
    ensures TrailingBlanks(ws, t) == k
  {
    TrailingBlanksSpan(ws, t);
  }

  /**
   * On all-blank input the two orders can disagree, since each keeps a
   * different character: a space followed by U+0001 (both blank whatever
   * `isWhitespace` says) trims to U+0001 one way and to the space the other.
   */
  lemma TrimsDisagreeOnBlanks(ws: char -> bool)
    ensures var t := [' ', '\U{0001}'];
      TrimEndChars(ws, TrimStartChars(ws, t)) == ['\U{0001}'] &&
      TrimStartChars(ws, TrimEndChars(ws, t)) == [' ']
  {
    var t := [' ', '\U{0001}'];
    assert Blank(ws, t[0]) && Blank(ws, t[1]);
    LeadingBlanksIs(ws, t, 2);
    TrailingBlanksIs(ws, t, 2);
    assert TrimStartChars(ws, t) == t[1..] == ['\U{0001}'];
    assert TrimEndChars(ws, t) == t[..1] == [' '];
  }

  /** `trimStart` is `trimEnd` seen through the reversed rope. */
  lemma TrimStartMirrorsTrimEnd(ws: char -> bool, t: seq<char>)
    ensures TrimStartChars(ws, t) == Rev(TrimEndChars(ws, Rev(t)))
  {
    var n, rt := |t|, Rev(t);
    var k := LeadingBlanks(ws, t);
    ReversedBlanks(ws, t);
    if k < n {
      assert TrimEndChars(ws, rt) == rt[0..n - k];
      ReversedCut(t, k);
    } else if n > 0 {
      assert TrimEndChars(ws, rt) == rt[..1];
      assert Rev(rt[..1]) == [t[n - 1]];
    }
  }

  /** The blanks leading `t` are the blanks trailing its reversal. */
  lemma ReversedBlanks(ws: char -> bool, t: seq<char>)
    ensures TrailingBlanks(ws, Rev(t)) == LeadingBlanks(ws, t)
  {
    var n, rt, k := |t|, Rev(t), LeadingBlanks(ws, t);
    LeadingBlanksSpan(ws, t);
    assert forall i :: n - k <= i < n ==> rt[i] == t[n - 1 - i];
    TrailingBlanksIs(ws, rt, k);
  }

  lemma ReversedCut(t: seq<char>, k: nat)
    requires k <= |t|
    ensures Rev(Rev(t)[0..|t| - k]) == t[k..]
  {
    RevSlice(Rev(t), 0, |t| - k);
    RevRev(t);
  }
}
