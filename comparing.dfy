/**
 * `compareTo`, `hashCode` and `equals` of `AbstractRope`. The comparison is
 * lexicographic by UTF-16 code unit; the hash code mixes at most six
 * characters (the first five and the last) with the `31 * h + c` rule of
 * `String.hashCode` in 32-bit arithmetic, and is cached in a field; two
 * ropes are equal when they hold the same characters.
 */
module Comparing {
  import opened JavaLang
  import opened Ropes
  import opened RopeOps

  /**
   * Lexicographic comparison: the difference of the first differing
   * characters, or of the lengths when one sequence is a prefix of the
   * other.
   */
  function Compare(a: seq<char>, b: seq<char>): (d: int)
    ensures |a| == 0 ==> d == -|b|
    ensures |b| == 0 ==> d == |a|
    decreases |a|
  {
    if |a| == 0 || |b| == 0 then |a| - |b|
    else if a[0] != b[0] then a[0] as int - b[0] as int
    else Compare(a[1..], b[1..])
  }

  /** Comparing the same characters gives zero, and only those. */
  lemma {:induction false} CompareZeroIff(a: seq<char>, b: seq<char>)
    ensures Compare(a, b) == 0 <==> a == b
    decreases |a|
  {
    if |a| != 0 && |b| != 0 && a[0] == b[0] {
      CompareZeroIff(a[1..], b[1..]);
      assert a == [a[0]] + a[1..] && b == [b[0]] + b[1..];
    }
  }

  /** Swapping the operands negates the comparison. */
  lemma {:induction false} CompareAntisymmetric(a: seq<char>, b: seq<char>)
    ensures Compare(b, a) == -Compare(a, b)
    decreases |a|
  {
    if |a| != 0 && |b| != 0 && a[0] == b[0] {
      CompareAntisymmetric(a[1..], b[1..]);
    }
  }

  /** "Sorts before" is transitive, so `compareTo` is an ordering. */
  lemma {:induction false} CompareTransitive(a: seq<char>, b: seq<char>, c: seq<char>)
    requires Compare(a, b) < 0 && Compare(b, c) < 0
    ensures Compare(a, c) < 0
    decreases |a|
  {
    if |a| != 0 && |b| != 0 && |c| != 0 && a[0] == b[0] && b[0] == c[0] {
      CompareTransitive(a[1..], b[1..], c[1..]);
    }
  }

  /** A proper prefix sorts first. */
  lemma {:induction false} PrefixSortsFirst(a: seq<char>, b: seq<char>)
    requires |a| < |b| && a == b[..|a|]
    ensures Compare(a, b) == |a| - |b| < 0
    decreases |a|
  {
    if |a| != 0 {
      assert a[0] == b[0];
      assert a[1..] == b[1..][..|a| - 1];
      PrefixSortsFirst(a[1..], b[1..]);
    }
  }

  /**
   * `compareTo(other)`: walks both sequences for as long as the shorter one
   * lasts and answers as `Compare` does.
   */
  method CompareTo(r: Rope, other: seq<char>) returns (d: int)
    requires Valid(r)
    ensures d == Compare(Content(r), other)
  {
    var t := Content(r);
    var compareTill := if |other| < |t| then |other| else |t|;
    var j := 0;
    while j < compareTill
      invariant 0 <= j <= compareTill
      invariant Compare(t, other) == Compare(t[j..], other[j..])
    {
      var x, y := t[j], other[j];
      if x != y {
        return x as int - y as int;
      }
      assert t[j..][1..] == t[j + 1..] && other[j..][1..] == other[j + 1..];
      j := j + 1;
    }
    return |t| - |other|;
  }

  /** The hash polynomial `31^(n-1) * s[0] + ... + s[n-1]`, in unbounded integers. */
  function Poly(s: seq<char>): int
    decreases |s|
  {
    if |s| == 0 then 0 else 31 * Poly(s[..|s| - 1]) + s[|s| - 1] as int
  }

  /** The same polynomial as `31 * hashCode + c` computes it, wrapping at every step. */
  function WrappedPoly(h: int, s: seq<char>): int
    decreases |s|
  {
    if |s| == 0 then h else WrappedPoly(Int32(31 * h + s[0] as int), s[1..])
  }

  /** Mixing `a + b` is mixing `a`, then `b` into that. */
  lemma {:induction false} WrappedPolyAppend(h: int, a: seq<char>, b: seq<char>)
    ensures WrappedPoly(h, a + b) == WrappedPoly(WrappedPoly(h, a), b)
    decreases |a|
  {
    if |a| != 0 {
      assert (a + b)[1..] == a[1..] + b;
      WrappedPolyAppend(Int32(31 * h + a[0] as int), a[1..], b);
    } else {
      assert a + b == b;
    }
  }

  /** The `hashCode = 31 * hashCode + c.code` loop over `s`, from `h0`. */
  method Mix(h0: int, s: seq<char>) returns (h: int)
    requires InIntRange(h0)
    ensures InIntRange(h) && h == WrappedPoly(h0, s)
  {
    h := h0;
    var j := 0;
    while j < |s|
      invariant 0 <= j <= |s| && InIntRange(h)
      invariant WrappedPoly(h, s[j..]) == WrappedPoly(h0, s)
    {
      assert s[j..][1..] == s[j + 1..];
      h := Int32(31 * h + s[j] as int);
      j := j + 1;
    }
  }

  /** Wrapping at every step is wrapping once at the end. */
  lemma {:induction false} WrappedPolyIsPoly(h: int, s: seq<char>)
    requires InIntRange(h)
    ensures WrappedPoly(h, s) == Int32(Poly(s) + h * Pow31(|s|))
    decreases |s|
  {
    if |s| != 0 {
      var c, k, rest := s[0] as int, Pow31(|s| - 1), Poly(s[1..]);
      var g := 31 * h + c;
      var h' := Int32(g);
      WrappedPolyIsPoly(h', s[1..]);
      PolyCons(s);
      assert Pow31(|s|) == 31 * k;
      Regroup(c, k, rest, h);
      assert Poly(s) + h * Pow31(|s|) == rest + g * k;
      ScaledCongruence(h', g, k, rest);
      Int32Congruent(rest + h' * k, rest + g * k);
    }
  }

  lemma Regroup(c: int, k: int, rest: int, h: int)
    ensures c * k + rest + h * (31 * k) == rest + (31 * h + c) * k
  {
  }

  lemma Shift31(c: int, k: int, m: int, z: int)
    ensures 31 * (c * k + m) + z == c * (31 * k) + (31 * m + z)
  {
  }

  function Pow31(n: nat): (p: int)
    ensures p >= 1
  {
    if n == 0 then 1 else 31 * Pow31(n - 1)
  }

  /** `Poly` read from the front: the first character carries the highest power. */
  lemma {:induction false} PolyCons(s: seq<char>)
    requires |s| != 0
    ensures Poly(s) == s[0] as int * Pow31(|s| - 1) + Poly(s[1..])
    decreases |s|
  {
    if |s| > 1 {
      var init, tail := s[..|s| - 1], s[1..];
      PolyCons(init);
      assert init[1..] == tail[..|tail| - 1];
      var c, k, m, z := s[0] as int, Pow31(|s| - 2), Poly(init[1..]), s[|s| - 1] as int;
      assert Poly(init) == c * k + m;
      assert Poly(tail) == 31 * m + z;
      assert Pow31(|s| - 1) == 31 * k;
      Shift31(c, k, m, z);
    } else {
      assert s[1..] == [];
    }
  }

  lemma ScaledCongruence(x: int, y: int, k: int, a: int)
    requires (x - y) % TWO_32 == 0
    ensures ((a + x * k) - (a + y * k)) % TWO_32 == 0
  {
    var q := (x - y) / TWO_32;
    assert x - y == q * TWO_32;
    assert (a + x * k) - (a + y * k) == (q * k) * TWO_32;
  }

  /** The characters the hash code looks at: all of a short sequence, else the first five and the last. */
  function HashedChars(s: seq<char>): (h: seq<char>)
    ensures |s| < 6 ==> h == s
    ensures |s| >= 6 ==> |h| == 6 && h[..5] == s[..5] && h[5] == s[|s| - 1]
  {
    if |s| < 6 then s else s[..5] + [s[|s| - 1]]
  }

  /** The hash code of a rope holding `s`: the `Int` that `31 * h + c` leaves over its hashed characters. */
  function HashOf(s: seq<char>): (h: int)
    ensures InIntRange(h)
  {
    Int32(Poly(HashedChars(s)))
  }

  /** A short rope hashes like `String.hashCode`; a longer one ignores all but six characters. */
  lemma HashIgnoresMiddle(a: seq<char>, b: seq<char>)
    requires |a| >= 6 && |b| >= 6 && a[..5] == b[..5] && a[|a| - 1] == b[|b| - 1]
    ensures HashOf(a) == HashOf(b)
  {
    assert HashedChars(a) == HashedChars(b);
  }

  /**
   * A rope object with its cached hash code, the field `hashCode`: zero
   * until computed, and the rope's hash once computed (a hash that comes
   * out as zero is recomputed on every call).
   */
  /**
   * Whether `hashCode()` throws on rope `r` whose cache holds `cached`: a
   * rope shorter than six characters is hashed by a `for` loop over its
   * walk, which asks for one character more when the walk overruns.
   */
  predicate ShortHashFails(r: Rope, cached: int)
    requires Ropes.Valid(r)
  {
    cached == 0 && 0 < |Content(r)| < 6 && OverrunsEnd(r, 0)
  }

  class RopeObject {
    const rope: Rope
    var hash: int

    ghost predicate Valid()
      reads this
    {
      Ropes.Valid(rope) && (hash == 0 || hash == HashOf(Content(rope)))
    }

    constructor (r: Rope)
      requires Ropes.Valid(r)
      ensures Valid() && rope == r && hash == 0
    {
      rope, hash := r, 0;
    }

    /**
     * `hashCode()`: the hash of the rope's characters, left in the cache.
     * A short rope mixes every character; a longer one the first five, from
     * its iterator, and then `get(length - 1)`. The short loop updates the
     * cache character by character, so when its walk overruns the whole
     * hash is already cached as the IllegalArgument is thrown.
     */
    method HashCode() returns (res: Result<int>)
      requires Valid()
      modifies this
      ensures Valid() && hash == HashOf(Content(rope))
      ensures res.Err? <==> ShortHashFails(rope, old(hash))
      ensures res.Err? ==> res.error == IllegalArgument
      ensures res.Ok? ==> res.value == hash
    {
      var t := Content(rope);
      var h := hash;
      if h == 0 && |t| > 0 {
        if |t| < 6 {
          h := Mix(0, t);
        } else {
          var first := t[..5];
          h := Mix(0, first);
          var c := t[|t| - 1];
          WrappedPolyAppend(0, first, [c]);
          assert HashedChars(t) == first + [c];
          h := Int32(31 * h + c as int);
        }
        WrappedPolyIsPoly(0, HashedChars(t));
        hash := h;
        if |t| < 6 && OverrunsEnd(rope, 0) {
          return Err(IllegalArgument);
        }
      }
      if |t| == 0 {
        assert h == HashOf(t);
      }
      return Ok(h);
    }

    /**
     * `equals(other)`: false for anything that is not a rope (`null` here
     * stands for every such object), false when the hash codes or the
     * lengths differ, else whether the characters agree one by one. The
     * other rope's hash code is asked for first, and either call may throw;
     * the character loop is driven by this rope's walk, so when every
     * character agrees and that walk overruns, the last `next()` throws.
     */
    method Equals(other: RopeObject?) returns (res: Result<bool>)
      requires Valid() && (other != null ==> other.Valid())
      modifies this, other
      ensures Valid() && (other != null ==> other.Valid())
      ensures other == null ==> res == Ok(false)
      ensures other != null ==>
        (res.Err? <==> ShortHashFails(other.rope, old(other.hash)) || ShortHashFails(rope, old(hash)) ||
                       (Content(other.rope) == Content(rope) && OverrunsEnd(rope, 0)))
      ensures res.Err? ==> res.error == IllegalArgument
      ensures res.Ok? ==> (res.value <==> other != null && Content(other.rope) == Content(rope))
    {
      if other == null {
        return Ok(false);
      }
      var h0 := hash;
      var h2 :- other.HashCode();
      assert other != this ==> hash == h0;
      var h1 :- HashCode();
      var a, b := Content(rope), Content(other.rope);
      if h2 != h1 || |b| != |a| {
        return Ok(false);
      }
      var eq := SameChars(a, b);
      if eq && OverrunsEnd(rope, 0) {
        return Err(IllegalArgument);
      }
      return Ok(eq);
    }
  }

  /** The character loop of `equals`: two sequences of one length agree one by one, or not. */
  method SameChars(a: seq<char>, b: seq<char>) returns (eq: bool)
    requires |a| == |b|
    ensures eq <==> a == b
  {
    var j := 0;
    while j < |a|
      invariant 0 <= j <= |a|
      invariant a[..j] == b[..j]
    {
      if a[j] != b[j] {
        return false;
      }
      j := j + 1;
    }
    assert a == a[..j] && b == b[..j];
    return true;
  }
}
