/**
 * The parts of the Java `RopeUtilities` that differ from the Kotlin
 * `Concatenating.kt`: the depth is a JVM `byte`, so a concatenation node
 * fixes it as `(byte) (max + 1)` and it wraps past 127; `autoRebalance`
 * compares that byte with `MAX_ROPE_DEPTH`; and `isBalanced` looks the
 * depth up in a table of Fibonacci numbers. The Java `concatenate` has the
 * branches of the Kotlin one with `autoRebalance` in place of
 * `maybeRebalance`, and its `rebalance` and `merge` are the Kotlin ones.
 */
module JavaRopeUtilities {
  import opened JavaLang
  import opened Ropes
  import opened Rebalancing
  import opened Concatenating

  /**
   * `FIBONACCI`: F(0) up to F(92), the largest Fibonacci number a `long`
   * holds, written as runs of twelve entries each.
   */
  const FIBONACCI: seq<int> :=
    FIB_RUN_0 + FIB_RUN_1 + FIB_RUN_2 + FIB_RUN_3 + FIB_RUN_4 + FIB_RUN_5 + FIB_RUN_6 + FIB_RUN_7

  const FIB_RUN_0: seq<int> := [0, 1, 1, 2, 3, 5, 8, 13, 21, 34, 55, 89]
  const FIB_RUN_1: seq<int> := [144, 233, 377, 610, 987, 1597, 2584, 4181, 6765, 10946, 17711, 28657]
  const FIB_RUN_2: seq<int> := [46368, 75025, 121393, 196418, 317811, 514229, 832040, 1346269, 2178309, 3524578, 5702887, 9227465]
  const FIB_RUN_3: seq<int> := [14930352, 24157817, 39088169, 63245986, 102334155, 165580141, 267914296, 433494437, 701408733, 1134903170, 1836311903, 2971215073]
  const FIB_RUN_4: seq<int> := [4807526976, 7778742049, 12586269025, 20365011074, 32951280099, 53316291173, 86267571272, 139583862445, 225851433717, 365435296162, 591286729879, 956722026041]
  const FIB_RUN_5: seq<int> := [1548008755920, 2504730781961, 4052739537881, 6557470319842, 10610209857723, 17167680177565, 27777890035288, 44945570212853, 72723460248141, 117669030460994, 190392490709135, 308061521170129]
  const FIB_RUN_6: seq<int> := [498454011879264, 806515533049393, 1304969544928657, 2111485077978050, 3416454622906707, 5527939700884757, 8944394323791464, 14472334024676221, 23416728348467685, 37889062373143906, 61305790721611591, 99194853094755497]
  const FIB_RUN_7: seq<int> := [160500643816367088, 259695496911122585, 420196140727489673, 679891637638612258, 1100087778366101931, 1779979416004714189, 2880067194370816120, 4660046610375530309, 7540113804746346429]

  const LONG_MAX: int := 0x7FFF_FFFF_FFFF_FFFF

  /** The Fibonacci numbers. */
  function Fib(n: nat): nat {
    if n < 2 then n else Fib(n - 1) + Fib(n - 2)
  }

  /** The table starts 0, 1, and every entry from the third on is the sum of the two before it. */
  predicate IsFibonacciTable(s: seq<int>) {
    |s| >= 2 && s[0] == 0 && s[1] == 1 && forall i :: 2 <= i < |s| ==> s[i] == s[i - 1] + s[i - 2]
  }

  /** The table holds F(0) to F(92), and every entry fits a `long`. */
  lemma FibonacciTable()
    ensures |FIBONACCI| == 93
    ensures forall i :: 0 <= i < 93 ==> FIBONACCI[i] == Fib(i) <= LONG_MAX
  {
    TableKeepsRecurrence();
    FibonacciBelowLast(FIBONACCI, LONG_MAX);
  }

  /** A table that keeps the recurrence holds the Fibonacci numbers, none above its last entry. */
  lemma FibonacciBelowLast(s: seq<int>, bound: int)
    requires IsFibonacciTable(s) && s[|s| - 1] <= bound
    ensures forall i :: 0 <= i < |s| ==> s[i] == Fib(i) <= bound
  {
    forall i | 0 <= i < |s|
      ensures s[i] == Fib(i)
    {
      TableEntry(s, i);
    }
    FibMonotone(|s| - 1);
  }

  /** Every entry from the third on is the sum of the two before it. */
  predicate KeepsRecurrence(s: seq<int>) {
    forall i :: 2 <= i < |s| ==> s[i] == s[i - 1] + s[i - 2]
  }

  /** `FIBONACCI` starts 0, 1 and keeps the recurrence throughout, across the joints of its runs too. */
  lemma TableKeepsRecurrence()
    ensures IsFibonacciTable(FIBONACCI)
  {
    FirstRuns7();
    Run7KeepsRecurrence();
    ExtendTable(FIB_RUN_0 + FIB_RUN_1 + FIB_RUN_2 + FIB_RUN_3 + FIB_RUN_4 + FIB_RUN_5 + FIB_RUN_6, FIB_RUN_7);
  }

  lemma FirstRuns2()
    ensures IsFibonacciTable(FIB_RUN_0 + FIB_RUN_1)
  {
    Run0KeepsRecurrence();
    Run1KeepsRecurrence();
    ExtendTable(FIB_RUN_0, FIB_RUN_1);
  }

  lemma FirstRuns3()
    ensures IsFibonacciTable(FIB_RUN_0 + FIB_RUN_1 + FIB_RUN_2)
  {
    FirstRuns2();
    Run2KeepsRecurrence();
    ExtendTable(FIB_RUN_0 + FIB_RUN_1, FIB_RUN_2);
  }

  lemma FirstRuns4()
    ensures IsFibonacciTable(FIB_RUN_0 + FIB_RUN_1 + FIB_RUN_2 + FIB_RUN_3)
  {
    FirstRuns3();
    Run3KeepsRecurrence();
    ExtendTable(FIB_RUN_0 + FIB_RUN_1 + FIB_RUN_2, FIB_RUN_3);
  }

  lemma FirstRuns5()
    ensures IsFibonacciTable(FIB_RUN_0 + FIB_RUN_1 + FIB_RUN_2 + FIB_RUN_3 + FIB_RUN_4)
  {
    FirstRuns4();
    Run4KeepsRecurrence();
    ExtendTable(FIB_RUN_0 + FIB_RUN_1 + FIB_RUN_2 + FIB_RUN_3, FIB_RUN_4);
  }

  lemma FirstRuns6()
    ensures IsFibonacciTable(FIB_RUN_0 + FIB_RUN_1 + FIB_RUN_2 + FIB_RUN_3 + FIB_RUN_4 + FIB_RUN_5)
  {
    FirstRuns5();
    Run5KeepsRecurrence();
    ExtendTable(FIB_RUN_0 + FIB_RUN_1 + FIB_RUN_2 + FIB_RUN_3 + FIB_RUN_4, FIB_RUN_5);
  }

  lemma FirstRuns7()
    ensures IsFibonacciTable(FIB_RUN_0 + FIB_RUN_1 + FIB_RUN_2 + FIB_RUN_3 + FIB_RUN_4 + FIB_RUN_5 + FIB_RUN_6)
  {
    FirstRuns6();
    Run6KeepsRecurrence();
    ExtendTable(FIB_RUN_0 + FIB_RUN_1 + FIB_RUN_2 + FIB_RUN_3 + FIB_RUN_4 + FIB_RUN_5, FIB_RUN_6);
  }

  lemma Run0KeepsRecurrence()
    ensures KeepsRecurrence(FIB_RUN_0)
  {
  }

  lemma Run1KeepsRecurrence()
    ensures KeepsRecurrence(FIB_RUN_1)
  {
  }

  lemma Run2KeepsRecurrence()
    ensures KeepsRecurrence(FIB_RUN_2)
  {
  }

  lemma Run3KeepsRecurrence()
    ensures KeepsRecurrence(FIB_RUN_3)
  {
  }

  lemma Run4KeepsRecurrence()
    ensures KeepsRecurrence(FIB_RUN_4)
  {
  }

  lemma Run5KeepsRecurrence()
    ensures KeepsRecurrence(FIB_RUN_5)
  {
  }

  lemma Run6KeepsRecurrence()
    ensures KeepsRecurrence(FIB_RUN_6)
  {
  }

  lemma Run7KeepsRecurrence()
    ensures KeepsRecurrence(FIB_RUN_7)
  {
  }

  /** A table followed by a run that keeps the recurrence and continues it at the joint is a table. */
  lemma ExtendTable(s: seq<int>, u: seq<int>)
    requires IsFibonacciTable(s) && KeepsRecurrence(u) && |u| >= 2
    requires u[0] == s[|s| - 1] + s[|s| - 2] && u[1] == u[0] + s[|s| - 1]
    ensures IsFibonacciTable(s + u)
  {
    var t := s + u;
    forall i | 2 <= i < |t|
      ensures t[i] == t[i - 1] + t[i - 2]
    {
      if i >= |s| + 2 {
        assert t[i] == u[i - |s|] && t[i - 1] == u[i - 1 - |s|] && t[i - 2] == u[i - 2 - |s|];
      }
    }
  }

  /** A sequence that starts 0, 1 and keeps the recurrence holds the Fibonacci numbers. */
  lemma {:induction false} TableEntry(s: seq<int>, i: nat)
    requires IsFibonacciTable(s) && i < |s|
    ensures s[i] == Fib(i)
  {
    if i >= 2 {
      TableEntry(s, i - 1);
      TableEntry(s, i - 2);
    }
  }

  /** Fibonacci numbers only grow, so the last entry is the largest. */
  lemma {:induction false} FibMonotone(n: nat)
    ensures forall i :: 0 <= i <= n ==> Fib(i) <= Fib(n)
  {
    if n > 0 {
      FibMonotone(n - 1);
    }
  }

  /** A JVM `(byte)` cast. */
  function Int8(x: int): (b: int)
    ensures -128 <= b <= 127
    ensures -128 <= x <= 127 ==> b == x
    ensures (b - x) % 256 == 0
  {
    (x + 128) % 256 - 128
  }

  /**
   * `depth()` of the Java nodes: 0 for a flat rope, the base's for a
   * substring or reversed view, and `(byte) (max + 1)` for a concatenation
   * node. Up to 127 it is the true depth.
   */
  function JavaDepth(r: Rope): (d: int)
    ensures -128 <= d <= 127
    ensures Depth(r) <= 127 ==> d == Depth(r)
  {
    match r
    case FlatChars(_) => 0
    case FlatSeq(_) => 0
    case Substring(b, _, _) => JavaDepth(b)
    case Reversed(b) => JavaDepth(b)
    case Concat(left, right) =>
      var dl, dr := JavaDepth(left), JavaDepth(right);
      Int8((if dl < dr then dr else dl) + 1)
  }

  /**
   * `autoRebalance`: a rope whose byte depth exceeds `MAX_ROPE_DEPTH` is
   * rebalanced, any other comes back as it is. For every rope no deeper
   * than 127 this is the Kotlin `maybeRebalance`.
   */
  function AutoRebalance(x: Rope): (y: Rope)
    requires Valid(x)
    ensures Valid(y) && Content(y) == Content(x)
    ensures JavaDepth(x) <= MAX_ROPE_DEPTH ==> y == x
    ensures JavaDepth(x) > MAX_ROPE_DEPTH ==>
      y == RebalanceOf(x) && Leaves(y) == Leaves(x) && Depth(y) <= CeilLog2(|Leaves(x)|)
    ensures Depth(x) <= 127 ==> y == MaybeRebalance(x)
  {
    RebalanceCorrect(x);
    if JavaDepth(x) > MAX_ROPE_DEPTH then RebalanceOf(x) else x
  }

  /** A left-leaning chain of `n` concatenation nodes over one-character leaves. */
  function Spine(n: nat): (r: Rope)
    requires n < INT_MAX
    ensures Valid(r) && Length(r) == n + 1 && Depth(r) == n
  {
    var leaf := FlatString(['a']);
    assert Valid(leaf) && Length(leaf) == 1 && Depth(leaf) == 0;
    if n == 0 then leaf else Concat(Spine(n - 1), leaf)
  }

  /**
   * Up to 128 nodes deep, the byte depth of the chain is the cast of its
   * depth (past that the wrapped depth of the left child loses to the
   * leaf's 0).
   */
  lemma {:induction false} SpineDepth(n: nat)
    requires n <= 128
    ensures JavaDepth(Spine(n)) == Int8(n)
  {
    if n > 0 {
      SpineDepth(n - 1);
    }
  }

  /**
   * Past 127 the byte depth wraps: the one chain deeper than
   * `MAX_ROPE_DEPTH` whose byte depth is not, the chain of 128 nodes, has
   * byte depth -128, so `autoRebalance` leaves it as it is where
   * `maybeRebalance` rebuilds it.
   */
  lemma WrappedDepthSkipsRebalance(n: nat)
    requires MAX_ROPE_DEPTH < n <= 128 && Int8(n) <= MAX_ROPE_DEPTH
    ensures n == 128 && JavaDepth(Spine(n)) == -128
    ensures AutoRebalance(Spine(n)) == Spine(n)
    ensures MaybeRebalance(Spine(n)) != Spine(n)
  {
    SpineDepth(n);
    SpineHasNoEmptyLeaf(n);
  }

  lemma {:induction false} SpineHasNoEmptyLeaf(n: nat)
    requires n < INT_MAX
    ensures NoEmptyLeaf(Spine(n))
  {
    if n > 0 {
      SpineHasNoEmptyLeaf(n - 1);
    }
  }

  /**
   * `isBalanced(r)`: false from byte depth 91 on (the table would run
   * out), otherwise whether the rope holds at least F(depth + 2)
   * characters. A byte depth below -2, which only a wrapped depth gives,
   * indexes the table below 0.
   */
  function IsBalanced(r: Rope): (res: Result<bool>)
    requires Valid(r)
    ensures res.Err? <==> JavaDepth(r) < -2
    ensures res.Err? ==> res.error == IndexOutOfBounds
    ensures JavaDepth(r) >= 91 ==> res == Ok(false)
    ensures -2 <= JavaDepth(r) < 91 ==> res == Ok(Fib(JavaDepth(r) + 2) <= Length(r))
  {
    FibonacciTable();
    var depth := JavaDepth(r);
    if depth >= |FIBONACCI| - 2 then Ok(false)
    else if depth + 2 < 0 then Err(IndexOutOfBounds)
    else Ok(FIBONACCI[depth + 2] <= Length(r))
  }
}
