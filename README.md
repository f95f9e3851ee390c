# ropes4k rope core in Dafny

A model of the rope of ropes4k. A rope is an immutable string held as a
tree, after Boehm, Atkinson and Plass, "Ropes: an Alternative to Strings".
The model proves properties of that tree. It covers:

- the four node kinds:
  - a flat leaf, either a private copy of a `char` array or a borrowed
    `CharSequence`, with `RepeatedCharacterSequence` among the sequences it
    can borrow;
  - a substring view over a flat leaf;
  - a reversed view;
  - a binary concatenation node;
- the smart constructor `concatenate` with its depth-triggered rebalance;
- the stack-walk `rebalance` and its balanced `merge`;
- the operations `AbstractRope` builds on top of them:
  - append, delete and insert;
  - compareTo, equals and hashCode;
  - indexOf, including the Boyer–Moore–Horspool search;
  - startsWith and endsWith;
  - the trims and the pads;
- the stateful iterators and the sequential-access adapter that drives one
  of them.

The Kotlin tree is the primary one: the Kotlin sources are what the rows
below cite. The older Java tree does the same things except where noted, and
where the two differ both behaviours are modelled:

- append: the Kotlin `append` wraps a rope argument in a new flat leaf; the
  Java one reuses the rope.
- depth: the Java node keeps its depth in a `byte`, which wraps past 127.
- iterators: the Kotlin tree has a second forward iterator over a
  concatenation, `ConcatenationRopeIterator`, which leaves empty subtrees
  off its stack. No code of the library constructs it: both trees'
  `ConcatenationRope.iterator` use `ConcatenationRopeIteratorImpl`, which
  keeps them. It is modelled as the `prune` mode of the same class.
- write: the Kotlin `ReverseRope.write` has a shadowed bounds check.
- search: the Java `FlatCharArrayRope` has its own Boyer–Moore–Horspool
  search, which shifts on the wrong character.

How each part is modelled:

- A rope is a value of the `Ropes.Rope` datatype.
- `Ropes.Content` is the sequence of characters the rope stands for. Every
  contract is stated against it.
- A Kotlin or Java exception is the error case of a `Result`:
  IndexOutOfBounds, IllegalArgument, NoSuchElement, NegativeArraySize, or
  ClassCast for a cast that fails.
- `write(out, offset, length)` returns the characters it would send to the
  `Writer`.
- Code that loops or updates fields is imperative Dafny, each method proved
  against a specification function:
  - the `compareTo`, `equals`, `indexOf`, `startsWith` and trim loops;
  - the search with its 256-entry shift table, an `array`;
  - the cached `hashCode` field;
  - the rebalancing stack walk;
  - the iterators, which are classes whose fields are updated in place.
- `Int` arithmetic is modelled with explicit 32-bit wrap-around where it
  matters: the hash code mixing and the pad count. The Java depth is a
  `byte` cast.
- `Character.isWhitespace` is a parameter of the trims.
- A walk over a concatenation node keeps empty leaves on its stack, so
  after the last character `hasNext()` still holds when the rope ends in an
  empty leaf, and the `next()` that follows throws IllegalArgument.
  `RopeOps.OverrunsEnd` and `RopeOps.OverrunsStart` say when a walk does
  this. Every loop driven by `hasNext()` that reads to the end has this
  error case: the short `hashCode`, `equals`, `indexOf(ch)`, `trimStart`
  and `trimEnd`.

## Model

| member | source | states |
|---|---|---|
| JavaLang.Int32 | src/main/kotlin/net/ropes4k/impl/AbstractRope.kt:77 | the 32-bit `Int` result of an arithmetic step: in range, congruent modulo 2^32, and the value itself when it fits |
| CharSequences.Get | src/main/kotlin/net/ropes4k/impl/RepeatedCharacterSequence.kt:18-20 | `get(i)`: the i-th character in range; a repeated-character sequence answers its character for every index; the other sequences refuse an index out of range with IndexOutOfBounds |
| CharSequences.SubSequence | src/main/kotlin/net/ropes4k/impl/RepeatedCharacterSequence.kt:25-27 | `subSequence(s, e)`: the characters `[s, e)` for a range that fits; a repeated-character sequence gives a repeated sequence of `e - s` copies for any range; a `String` range stays a `String` |
| CharSequences.ToString | src/main/kotlin/net/ropes4k/impl/RepeatedCharacterSequence.kt:29-33 | `toString()`: exactly `repeat` copies of the character for a repeated sequence, NegativeArraySize for a negative repeat, the characters otherwise |
| Ropes.Content | src/main/kotlin/net/ropes4k/impl/ConcatenationRope.kt:25-28 | a node's characters are as many as its `length`, a concatenation's length being the sum of its children's |
| Ropes.LengthBounds | src/main/kotlin/net/ropes4k/impl/Concatenating.kt:22-25 | every well-formed rope has a length between 0 and `Int.MAX_VALUE` |
| Ropes.OuterLeaves | src/main/kotlin/net/ropes4k/impl/ConcatenationRopeIteratorImpl.kt:46-59 | the rightmost leaf's characters end the rope's and the leftmost leaf's begin them |
| Ropes.LeafDepth | src/main/kotlin/net/ropes4k/impl/SubstringRope.kt:29-31 | a node that is no concatenation, a view included, has depth 0 |
| Ropes.Get | src/main/kotlin/net/ropes4k/impl/ConcatenationRope.kt:30-34 | `get(i)` is the i-th character for `0 <= i < length`; a concatenation, a substring view or an array leaf refuses `i >= length`; a substring view reads a negative index in its base, before the window |
| Ropes.NewFlatCharArray | src/main/kotlin/net/ropes4k/impl/FlatCharArrayRope.kt:18-22 | the copying constructor: IllegalArgument when `length > chars.size`, NegativeArraySize for a negative length, IndexOutOfBounds when the range leaves the array, else a leaf holding exactly `chars[offset, offset + length)` |
| Ropes.NewSubstring | src/main/kotlin/net/ropes4k/impl/SubstringRope.kt:19-21 | the view's constructor succeeds exactly when `0 <= length`, `0 <= offset` and `offset + length <= base.length`, else IndexOutOfBounds; the view holds `base[offset, offset + length)` |
| Rebalancing.Leaves | src/main/kotlin/net/ropes4k/impl/Rebalancing.kt:15-27 | every rope has at least one leaf |
| Rebalancing.LeavesAreLeaves | src/main/kotlin/net/ropes4k/impl/Rebalancing.kt:20-26 | the collected leaves are never concatenation nodes: flat, substring and reversed nodes are taken whole |
| Rebalancing.Rebalance | src/main/kotlin/net/ropes4k/impl/Rebalancing.kt:12-29 | the explicit-stack walk (pop, push right then left, collect the rest) computes the merge of the leaves in left-to-right order |
| Rebalancing.LeavesContent | src/main/kotlin/net/ropes4k/impl/Rebalancing.kt:18-27 | the leaves, read in order, hold the rope's characters and add up to its length |
| Rebalancing.MergeLeaves | src/main/kotlin/net/ropes4k/impl/Rebalancing.kt:31-44 | merging a range of leaves uses each of them exactly once and in order |
| Rebalancing.MergeSplit | src/main/kotlin/net/ropes4k/impl/Rebalancing.kt:36-42 | a range of two or more splits at `start + range / 2` into two non-empty halves joined by one node |
| Rebalancing.MergeContent | src/main/kotlin/net/ropes4k/impl/Rebalancing.kt:31-44 | the merged tree is well formed and holds the range's characters |
| Rebalancing.MergeDepth | src/main/kotlin/net/ropes4k/impl/Rebalancing.kt:31-44 | at most 2^h leaves of depth at most d merge into a tree of depth at most `d + h` |
| Rebalancing.CeilLog2Bounds | src/main/kotlin/net/ropes4k/impl/Rebalancing.kt:37 | the depth bound used for the merge is the least `k` with `n <= 2^k` |
| Rebalancing.RebalanceCorrect | src/main/kotlin/net/ropes4k/impl/Rebalancing.kt:12-29 | rebalancing keeps the leaves, the characters and well-formedness, gives depth at most ⌈log2(number of leaves)⌉ above the leaves, and returns a leaf as it is |
| Concatenating.MaybeRebalance | src/main/kotlin/net/ropes4k/impl/Concatenating.kt:56-62 | a node deeper than 96 is replaced by its rebalanced form, of depth at most the ceiling of log2 of its leaf count; any other is returned as it is; leaves and characters are unchanged; a node without empty leaves comes out balanced |
| Concatenating.FoldIntoRight | src/main/kotlin/net/ropes4k/impl/Concatenating.kt:30-39 | the right fold holds `left ++ right`, its leaves are one flat leaf of `left ++ right.left` followed by the leaves of `right.right`, and a balanced right operand stays balanced |
| Concatenating.FoldIntoLeft | src/main/kotlin/net/ropes4k/impl/Concatenating.kt:40-49 | the mirror fold holds `left ++ right`, its leaves are the leaves of `left.left` followed by one flat leaf of `left.right ++ right`, and a balanced left operand stays balanced |
| Concatenating.Join | src/main/kotlin/net/ropes4k/impl/Concatenating.kt:51 | the plain node, possibly rebalanced, holds `left ++ right` with the leaves of both in order |
| Concatenating.Concatenate | src/main/kotlin/net/ropes4k/impl/Concatenating.kt:19-52 | IllegalArgument exactly when the combined length exceeds `Int.MAX_VALUE`; otherwise the result holds `left ++ right`; an empty operand returns the other one itself; a combined length below 17 gives one `String` leaf; a short flat operand beside a concatenation folds into its near child, with the fold's leaf shape; two concatenation operands are joined, never folded; balance is kept |
| Concatenating.NoEmptyLeafIff | src/main/kotlin/net/ropes4k/impl/Concatenating.kt:20-21 | a rope has no empty leaf exactly when every collected leaf has a character |
| Concatenating.LeafCount | src/main/kotlin/net/ropes4k/impl/Concatenating.kt:20-21 | a rope without empty leaves has no more leaves than characters, which bounds the depth a rebalance reaches |
| RopeOps.Reverse | src/main/kotlin/net/ropes4k/impl/ConcatenationRope.kt:92-94 | `reverse()` holds the characters in reverse order, keeps the length and balance, and wraps a flat leaf or a view in a ReverseRope |
| RopeOps.ReverseTwice | src/main/kotlin/net/ropes4k/impl/ReverseRope.kt:40-42 | reversing twice gives the characters back, and for a node that is no concatenation the very same rope |
| RopeOps.SubSequence | src/main/kotlin/net/ropes4k/impl/ConcatenationRope.kt:105-115 | `subSequence(s, e)` of any node holds `content[s, e)` for a range that fits; the whole range returns the rope itself; a concatenation refuses a range outside it with IllegalArgument; a leaf or view gives a leaf or view |
| RopeOps.ConcatSubSequence | src/main/kotlin/net/ropes4k/impl/ConcatenationRope.kt:105-115 | the node's `subSequence`: IllegalArgument when `s < 0` or `e > length`, itself for the whole range, else the characters `[s, e)` |
| RopeOps.JoinedSubSequence | src/main/kotlin/net/ropes4k/impl/ConcatenationRope.kt:111-114 | a range across the child boundary concatenates the two parts and holds `content[s, e)` |
| RopeOps.ReversedSubSequence | src/main/kotlin/net/ropes4k/impl/ReverseRope.kt:59-62 | the mirrored range of the base, reversed, holds `content[s, e)`; the whole range returns the view itself |
| RopeOps.ReversedSlice | src/main/kotlin/net/ropes4k/impl/ReverseRope.kt:61 | the reversal of the base range `[length - e, length - s)` is the view's range `[s, e)` |
| RopeOps.ViewSubSequence | src/main/kotlin/net/ropes4k/impl/ReverseRope.kt:61 | the range of a flat leaf or a substring view, the nodes a reversed view wraps, holds `content[s, e)` at depth 0, is the node itself for the whole range, and is again a leaf or a view |
| RopeOps.FlatSubSequence | src/main/kotlin/net/ropes4k/impl/FlatCharArrayRope.kt:79-86 | a flat leaf's range holds `content[s, e)`, is itself for the whole range, and is a leaf or a substring view |
| RopeOps.SubstringSubSequence | src/main/kotlin/net/ropes4k/impl/SubstringRope.kt:80-83 | a view's range is a view over the same base (offsets composed, never chained) holding `content[s, e)` |
| RopeOps.WrittenInRange | src/main/kotlin/net/ropes4k/impl/ConcatenationRope.kt:123-134 | the range `write` of every node emits exactly `content[offset, offset + length)` |
| RopeOps.ConcatWrittenInRange | src/main/kotlin/net/ropes4k/impl/ConcatenationRope.kt:123-134 | the node's range `write`, split at the child boundary, emits exactly `content[offset, offset + length)` |
| RopeOps.LeafWrittenInRange | src/main/kotlin/net/ropes4k/impl/FlatCharSequenceRope.kt:90-98 | a leaf's or reversed view's range `write` emits exactly the requested characters |
| RopeOps.LeafWriteErrors | src/main/kotlin/net/ropes4k/impl/FlatCharSequenceRope.kt:91 | a range starting before 0 or running past the end is refused with IndexOutOfBounds; a negative length is refused by a `String` or an array leaf and writes nothing otherwise |
| RopeOps.SubstringWritePastWindow | src/main/kotlin/net/ropes4k/impl/SubstringRope.kt:94-97 | a view writes through to its base with the offset shifted, so any range inside the base is written, even past the window |
| RopeOps.Write | src/main/kotlin/net/ropes4k/impl/ConcatenationRope.kt:123-134 | the recursive range `write` with its character loops emits what the specification function `Written` says |
| RopeOps.EachOfSequence | src/main/kotlin/net/ropes4k/impl/FlatCharSequenceRope.kt:97 | the borrowed leaf's loop emits `chars[offset, offset + length)`, nothing for a negative length |
| RopeOps.EachOfRope | src/main/kotlin/net/ropes4k/impl/ReverseRope.kt:72 | the reversed view's `get`-loop emits `content[offset, offset + length)`, nothing for a negative length |
| RopeOps.WriteAll | src/main/kotlin/net/ropes4k/impl/ConcatenationRope.kt:118-121 | `write(out)` emits exactly the rope's characters |
| RopeOps.FlatToString | src/main/kotlin/net/ropes4k/impl/FlatCharSequenceRope.kt:80-82 | `toString(offset, length)` of a leaf is `content[offset, offset + length)`; out of range it is IndexOutOfBounds, except over a repeated sequence, which gives `length` copies or NegativeArraySize |
| RopeOps.SubstringToString | src/main/kotlin/net/ropes4k/impl/SubstringRope.kt:85-87 | a view's `toString()` is its base's `toString(offset, length)` and holds the view's characters |
| RopeOps.IteratorTarget | src/main/kotlin/net/ropes4k/impl/ConcatenationRope.kt:79-86 | `iterator(start)` refuses a start outside `[0, length]`, hands a start in the right child to that child, and lands on a node whose remaining characters are the rope's from `start` |
| RopeOps.ReverseIteratorTarget | src/main/kotlin/net/ropes4k/impl/ConcatenationRope.kt:96-103 | `reverseIterator(start)` mirrors this with the left child and preserves the characters before `length - start` |
| RopeOps.WalksConcatIsTarget | src/main/kotlin/net/ropes4k/impl/ConcatenationRope.kt:79-103 | the walk-kind test follows the dispatch of `iterator(start)` and of `reverseIterator(start)`: it holds exactly when the node they build on is a concatenation |
| RopeOps.TargetEndsWithRope | src/main/kotlin/net/ropes4k/impl/ConcatenationRope.kt:79-86 | the node `iterator(start)` builds on ends in the rope's own rightmost leaf |
| RopeOps.ReverseTargetBeginsWithRope | src/main/kotlin/net/ropes4k/impl/ConcatenationRope.kt:96-103 | the node `reverseIterator(start)` builds on begins with the rope's own leftmost leaf |
| RopeOps.OverrunNeedsCharacters | src/main/kotlin/net/ropes4k/impl/ConcatenationRope.kt:79-86 | a walk lands on a concatenation node, and so can overrun, only from a start before the end |
| RopeOps.TrailingEmptyLeafOverruns | src/main/kotlin/net/ropes4k/impl/ConcatenationRopeIteratorImpl.kt:39-41 | `Concat("ab", "")` overruns its end from starts 0 and 1, not from 2, and its reverse walk does not overrun |
| Edits.Of | src/main/kotlin/net/ropes4k/Rope.kt:372-376 | `Rope.of(sequence)` returns a rope argument by identity and borrows any other sequence in a flat leaf; the content is the argument's characters |
| Edits.OfCharArray | src/main/kotlin/net/ropes4k/Rope.kt:367-370 | `Rope.of(chars)` is an array leaf holding a copy of the whole array |
| Edits.Wrap | src/main/kotlin/net/ropes4k/impl/FlatCharSequenceRope.kt:16-22 | the Kotlin `FlatCharSequenceRope(chars)` is a new flat leaf over the argument's characters, whatever the argument is |
| Edits.OrNull | src/main/java/net/ropes4k/impl/AbstractRope.java:216 | a null argument stands for the four characters of "null" |
| Edits.AppendChar | src/main/kotlin/net/ropes4k/impl/AbstractRope.kt:23-25 | `append(c)` holds the rope followed by `c`, and is refused with IllegalArgument exactly at `Int.MAX_VALUE` characters |
| Edits.KotlinAppend | src/main/kotlin/net/ropes4k/impl/AbstractRope.kt:27-29 | the Kotlin `append(chars)` holds the rope followed by the argument, is refused exactly when the sum overflows, and from an empty rope gives the new flat leaf |
| Edits.JavaAppend | src/main/java/net/ropes4k/impl/AbstractRope.java:32-35 | the Java `append(suffix)` holds the same characters, and from an empty rope returns a rope suffix itself |
| Edits.KotlinAppendRange | src/main/kotlin/net/ropes4k/impl/AbstractRope.kt:31-33 | the Kotlin `append(chars, start, end)` appends `chars[start, end)` for a range that fits, when the sum fits an `Int`; a range that does not fit is IndexOutOfBounds for a sequence that is not repeated and for a rope asked for eight characters or more; a rope asked for fewer gives its own `subSequence` error, or its answer appended |
| Edits.WrapRange | src/main/kotlin/net/ropes4k/impl/FlatCharSequenceRope.kt:67-74 | `subSequence` of the new leaf gives the range's characters for a range that fits; out of range it is IndexOutOfBounds for a sequence that is not repeated and for a rope range of eight characters or more; a shorter rope range passes on the rope's own `subSequence` error or characters |
| Edits.AppendRangeAsksTheArgument | src/main/kotlin/net/ropes4k/impl/FlatCharSequenceRope.kt:67-70 | appending the range `[-1, 2)` of `Concat("ab", "cd")` is IllegalArgument, and the range `[-3, 2)` of ten repeated `z` appends five `z` |
| Edits.JavaAppendRange | src/main/java/net/ropes4k/impl/AbstractRope.java:37-40 | the Java one appends the same range; a plain sequence refuses a bad range with IndexOutOfBounds, a concatenation argument with IllegalArgument |
| Edits.KotlinDelete | src/main/kotlin/net/ropes4k/impl/AbstractRope.kt:46-49 | `delete(start, end)` returns the rope itself for `start == end`, else holds `content[0, start) ++ content[end, n)`; a concatenation refuses a start past the end or a negative end with IllegalArgument |
| Edits.JavaDelete | src/main/java/net/ropes4k/impl/AbstractRope.java:55-60 | the Java `delete` has the same outcomes |
| Edits.SplitAt | src/main/kotlin/net/ropes4k/impl/AbstractRope.kt:162 | the two halves `subSequence(0, at)` and `subSequence(at, length)` exist for `0 <= at <= length` and hold the characters before and after `at` |
| Edits.KotlinInsert | src/main/kotlin/net/ropes4k/impl/AbstractRope.kt:156-163 | `insert(at, chars)` succeeds exactly for `0 <= at <= n` when the sum fits, holding `content[0, at) ++ chars ++ content[at, n)`; else IndexOutOfBounds for a bad `at`, IllegalArgument for an overflow |
| Edits.JavaInsert | src/main/java/net/ropes4k/impl/AbstractRope.java:214-224 | the Java `insert` has the same outcomes, a null argument inserting "null" |
| Edits.DeleteThenInsert | src/main/kotlin/net/ropes4k/impl/AbstractRope.kt:46-49 | deleting a range and inserting the deleted part back at its start restores the characters |
| Edits.Padding | src/main/kotlin/net/ropes4k/impl/AbstractRope.kt:224 | the repeated pad is exactly `n` copies of the pad character |
| Edits.ToPad | src/main/kotlin/net/ropes4k/impl/AbstractRope.kt:221 | the pad count `toLength - length` in `Int` arithmetic: the difference when it fits, else the difference plus 2^32, a count that overflows any concatenation |
| Edits.WithPad | src/main/kotlin/net/ropes4k/impl/AbstractRope.kt:223-226 | a repeated-character leaf joined before or after the rope: the pad plus the characters in order, IllegalArgument exactly when the total overflows |
| Edits.PadStart | src/main/kotlin/net/ropes4k/impl/AbstractRope.kt:220-227 | `padStart` returns the rope itself when it is long enough, holds `toLength - length` copies of `padChar` before it when it is shorter, and is refused when the count wraps |
| Edits.PadEnd | src/main/kotlin/net/ropes4k/impl/AbstractRope.kt:229-236 | `padEnd` is the same, with the pad after the rope |
| Edits.SelfAppended | src/main/kotlin/net/ropes4k/impl/Concatenating.kt:22-25 | appending "01" to itself 29 times gives 2^30 characters, and one more append is refused with IllegalArgument |
| Comparing.Compare | src/main/kotlin/net/ropes4k/impl/AbstractRope.kt:35-44 | against an empty sequence the comparison is the length difference |
| Comparing.CompareZeroIff | src/main/kotlin/net/ropes4k/impl/AbstractRope.kt:35-44 | `compareTo` gives 0 exactly when the characters are equal |
| Comparing.CompareAntisymmetric | src/main/kotlin/net/ropes4k/impl/AbstractRope.kt:35-44 | swapping the operands negates the result |
| Comparing.CompareTransitive | src/main/kotlin/net/ropes4k/impl/AbstractRope.kt:35-44 | the order is transitive |
| Comparing.PrefixSortsFirst | src/main/kotlin/net/ropes4k/impl/AbstractRope.kt:43 | a proper prefix sorts first, by the length difference |
| Comparing.CompareTo | src/main/kotlin/net/ropes4k/impl/AbstractRope.kt:35-44 | the character loop answers the code difference at the first mismatch, else the length difference |
| Comparing.WrappedPolyAppend | src/main/kotlin/net/ropes4k/impl/AbstractRope.kt:76-78 | mixing `a ++ b` is mixing `a` and then `b` |
| Comparing.Mix | src/main/kotlin/net/ropes4k/impl/AbstractRope.kt:76-78 | the loop `h = 31 * h + c` in 32-bit arithmetic computes the wrapped polynomial |
| Comparing.WrappedPolyIsPoly | src/main/kotlin/net/ropes4k/impl/AbstractRope.kt:77 | wrapping at every step gives the 32-bit residue of the exact polynomial `31^(n-1)·c0 + … + c(n-1)` |
| Comparing.HashedChars | src/main/kotlin/net/ropes4k/impl/AbstractRope.kt:75-83 | the hash mixes every character of a rope under 6, else the first five and the last |
| Comparing.HashOf | src/main/kotlin/net/ropes4k/impl/AbstractRope.kt:73-86 | the hash code is an `Int` |
| Comparing.HashIgnoresMiddle | src/main/kotlin/net/ropes4k/impl/AbstractRope.kt:79-83 | two ropes of 6 or more characters with the same first five and the same last have the same hash |
| Comparing.RopeObject.constructor | src/main/kotlin/net/ropes4k/impl/AbstractRope.kt:18 | the cached hash starts at 0, "not computed" |
| Comparing.RopeObject.HashCode | src/main/kotlin/net/ropes4k/impl/AbstractRope.kt:73-86 | `hashCode()` leaves the hash of the characters in the cache and returns it; it throws IllegalArgument exactly when the cache is empty, the rope has 1 to 5 characters and its walk overruns the end |
| Comparing.RopeObject.Equals | src/main/kotlin/net/ropes4k/impl/AbstractRope.kt:51-65 | `equals` answers true exactly for another rope with the same characters, and false for a non-rope. It throws IllegalArgument exactly when either hash code throws, or the characters agree and this rope's walk overruns the end |
| Comparing.SameChars | src/main/kotlin/net/ropes4k/impl/AbstractRope.kt:57-61 | the character loop of `equals` answers whether the sequences are equal |
| Searching.FirstIndexOf | src/main/kotlin/net/ropes4k/impl/AbstractRope.kt:88-97 | the first index at or after `from` holding `ch`, or -1 when there is none |
| Searching.FirstOccurrence | src/main/kotlin/net/ropes4k/Rope.kt:129-142 | the least `k >= from` where the pattern occurs, or -1 when there is none |
| Searching.FirstIndexOfIsOccurrence | src/main/kotlin/net/ropes4k/impl/AbstractRope.kt:124 | searching for one character is searching for the one-character pattern |
| Searching.IndexOfChar | src/main/kotlin/net/ropes4k/impl/AbstractRope.kt:88-97 | `indexOf(ch, from)` is IndexOutOfBounds unless `0 <= from < length`; else it is the first index at or after `from` holding `ch`, or -1. When `ch` is absent and the walk from `from` overruns the end, it is IllegalArgument instead |
| Searching.IndexOfCharFromStart | src/main/java/net/ropes4k/impl/AbstractRope.java:111-120 | `indexOf(ch)` is the first index holding `ch`, or -1; when `ch` is absent and the walk overruns the end it is IllegalArgument |
| Searching.StartsWith | src/main/kotlin/net/ropes4k/impl/AbstractRope.kt:99-109 | `startsWith(p, off)` is IndexOutOfBounds for `off` outside `[0, length]`, else whether `p` occurs at `off` (false when it would run past the end) |
| Searching.EndsWith | src/main/kotlin/net/ropes4k/impl/AbstractRope.kt:111-113 | `endsWith(s, off)` is `startsWith(s, length - |s| - off)`, so an over-long suffix is refused; in range it says whether `s` ends `off` characters before the end |
| Searching.Low8 | src/main/kotlin/net/ropes4k/impl/AbstractRope.kt:132 | a character's table slot is its low 8 bits |
| Searching.Shift | src/main/kotlin/net/ropes4k/impl/AbstractRope.kt:126-134 | a shift is between 1 and the pattern length and never more than the distance from the end of any pattern character sharing the slot |
| Searching.NoMatchSkipped | src/main/kotlin/net/ropes4k/impl/AbstractRope.kt:144 | shifting by the slot of the window's last text character skips no occurrence, although slots merge characters |
| Searching.BadCharacterTable | src/main/kotlin/net/ropes4k/impl/AbstractRope.kt:126-134 | the filled 256-entry table holds the shift of every slot |
| Searching.ReadAt | src/main/kotlin/net/ropes4k/impl/AbstractRope.kt:142 | reading through the sequential view answers `get` |
| Searching.CompareWindow | src/main/kotlin/net/ropes4k/impl/AbstractRope.kt:139-150 | comparing the window from its end tells whether the pattern occurs there |
| Searching.WindowStep | src/main/kotlin/net/ropes4k/impl/AbstractRope.kt:141-148 | one comparison from the window's end: a differing character rules the window out, an agreeing one at the pattern's first position is an occurrence, any agreeing one extends the agreement |
| Searching.SkipAhead | src/main/kotlin/net/ropes4k/impl/AbstractRope.kt:143-145 | after a mismatch, no occurrence starts before the shifted window |
| Searching.Horspool | src/main/kotlin/net/ropes4k/impl/AbstractRope.kt:136-153 | the search loop answers the least occurrence at or after `from`, or -1 |
| Searching.IndexOfSequence | src/main/kotlin/net/ropes4k/impl/AbstractRope.kt:115-154 | `indexOf(p, from)`: -1 for an empty pattern; `indexOf(p[0], from)` for one character, with its IndexOutOfBounds and overrun cases; the least occurrence at or after `from` for longer ones; ClassCast for a node whose sequential view cannot be built |
| Trimming.LeadingBlanks | src/main/kotlin/net/ropes4k/impl/AbstractRope.kt:169-177 | the count of blanks at the front is at most the length |
| Trimming.LeadingBlanksSpan | src/main/kotlin/net/ropes4k/impl/AbstractRope.kt:173 | the counted characters are blank and the next one is not |
| Trimming.TrailingBlanks | src/main/kotlin/net/ropes4k/impl/AbstractRope.kt:187-197 | the count of blanks at the back is at most the length |
| Trimming.TrailingBlanksSpan | src/main/kotlin/net/ropes4k/impl/AbstractRope.kt:193 | the counted characters are blank and the one before them is not |
| Trimming.TrimStartChars | src/main/kotlin/net/ropes4k/impl/AbstractRope.kt:169-177 | `trimStart` leaves a suffix cut only through blanks, beginning with a non-blank unless one character long; an all-blank rope keeps its last character; a rope needing no cut is kept |
| Trimming.TrimEndChars | src/main/kotlin/net/ropes4k/impl/AbstractRope.kt:187-197 | `trimEnd` mirrors this with a prefix; an all-blank rope keeps its first character |
| Trimming.AllBlankMeans | src/main/kotlin/net/ropes4k/impl/AbstractRope.kt:169-197 | "all blank" means every character is blank, and the counts from the front and from the back both reach the length |
| Trimming.StartIndex | src/main/kotlin/net/ropes4k/impl/AbstractRope.kt:170-174 | the forward scan stops where `trimStart` cuts, at 0 or -1 exactly when no cut is made, and it stops before the end exactly when some character is not blank |
| Trimming.TrimStart | src/main/kotlin/net/ropes4k/impl/AbstractRope.kt:169-177 | `trimStart()` holds the trimmed characters and returns the rope itself when nothing is cut; it throws IllegalArgument exactly when every character is blank and the walk overruns the end |
| Trimming.EndIndex | src/main/kotlin/net/ropes4k/impl/AbstractRope.kt:188-194 | the backward scan stops where `trimEnd` cuts, at `length` or more exactly when no cut is made, and it stops before the start exactly when some character is not blank |
| Trimming.TrimEnd | src/main/kotlin/net/ropes4k/impl/AbstractRope.kt:187-197 | `trimEnd()` holds the trimmed characters and returns the rope itself when nothing is cut; it throws IllegalArgument exactly when every character is blank and the reverse walk overruns the start |
| Trimming.Trim | src/main/kotlin/net/ropes4k/impl/AbstractRope.kt:210-212 | `trim()` holds `trimEnd` of `trimStart` of the characters. It throws only IllegalArgument and only on an all-blank rope; it succeeds when some character is not blank, and throws when every one is blank and the forward walk overruns |
| Trimming.TrimStartKeepsNonBlank | src/main/kotlin/net/ropes4k/impl/AbstractRope.kt:210-212 | what `trimStart` leaves of a rope with a non-blank character still has one |
| Trimming.TrimIdempotent | src/main/kotlin/net/ropes4k/impl/AbstractRope.kt:210-212 | trimming a trimmed rope changes nothing |
| Trimming.TrimsCommute | src/main/kotlin/net/ropes4k/impl/AbstractRope.kt:210-212 | when some character is not blank, the order of the two trims does not matter |
| Trimming.TrimsDisagreeOnBlanks | src/main/kotlin/net/ropes4k/impl/AbstractRope.kt:210-212 | on an all-blank rope it does: `" \u0001"` trims to `"\u0001"` one way and `" "` the other |
| Trimming.TrimStartMirrorsTrimEnd | src/main/kotlin/net/ropes4k/impl/AbstractRope.kt:169-197 | `trimStart` is `trimEnd` of the reversal, reversed |
| LeafIterators.CheckStart | src/main/kotlin/net/ropes4k/impl/FlatRopeIterator.kt:12-14 | a start outside `[0, length]` is refused with IndexOutOfBounds |
| LeafIterators.After | src/main/kotlin/net/ropes4k/impl/FlatRopeIterator.kt:20-22 | the characters a forward cursor at `current` still yields: `content[current]` then the rest, `length - current` of them |
| LeafIterators.Before | src/main/kotlin/net/ropes4k/impl/FlatRopeReverseIterator.kt:20-22 | the characters a backward cursor at `current` still yields: `content[current - 1]` down to `content[0]` |
| LeafIterators.IndexIterator.constructor | src/main/kotlin/net/ropes4k/impl/FlatRopeIterator.kt:9-14 | a forward cursor at `start` yields `content[start..]` |
| LeafIterators.IndexIterator.HasNext | src/main/kotlin/net/ropes4k/impl/FlatRopeIterator.kt:16-18 | `hasNext()` holds exactly when characters remain |
| LeafIterators.IndexIterator.Next | src/main/kotlin/net/ropes4k/impl/FlatRopeIterator.kt:20-25 | `next()` yields the next character and advances; at the end the Kotlin flat cursor fails with NoSuchElement and the unguarded ones answer `get` past the end |
| LeafIterators.IndexReverseIterator.constructor | src/main/kotlin/net/ropes4k/impl/FlatRopeReverseIterator.kt:9-14 | a backward cursor starts at `length - start` and yields `content[0, length - start)` reversed |
| LeafIterators.IndexReverseIterator.HasNext | src/main/kotlin/net/ropes4k/impl/FlatRopeReverseIterator.kt:16-18 | `hasNext()` holds exactly when characters remain |
| LeafIterators.IndexReverseIterator.Next | src/main/kotlin/net/ropes4k/impl/FlatRopeReverseIterator.kt:20-22 | `next()` yields the previous character; with nothing left it answers `get(-1)`, having no guard |
| LeafIterators.BaseAt | src/main/kotlin/net/ropes4k/impl/SubstringRope.kt:52-55 | the base iterator's `next()` at an index: the character in range, NoSuchElement past the end for a guarded base |
| LeafIterators.SubstringIterator.constructor | src/main/kotlin/net/ropes4k/impl/SubstringRope.kt:42-46 | the view's forward iterator opens the base at `offset + start` and yields `content[start..]` |
| LeafIterators.SubstringIterator.HasNext | src/main/kotlin/net/ropes4k/impl/SubstringRope.kt:48-50 | `hasNext()` holds exactly when characters of the view remain |
| LeafIterators.SubstringIterator.Next | src/main/kotlin/net/ropes4k/impl/SubstringRope.kt:52-55 | `next()` yields the view's next character; past the window it reads on in the base |
| LeafIterators.SubstringReverseIterator.constructor | src/main/kotlin/net/ropes4k/impl/SubstringRope.kt:63-67 | the view's reverse iterator opens the base at `base.length - offset - length + start` and yields `length - start` characters, reversed |
| LeafIterators.SubstringReverseIterator.HasNext | src/main/kotlin/net/ropes4k/impl/SubstringRope.kt:69-71 | `hasNext()` holds exactly when characters of the view remain |
| LeafIterators.SubstringReverseIterator.Next | src/main/kotlin/net/ropes4k/impl/SubstringRope.kt:73-76 | `next()` yields the view's previous character; before the window it reads on in the base |
| ConcatIterators.PushChildren | src/main/kotlin/net/ropes4k/impl/ConcatenationRopeIterator.kt:46-48 | pushing a node's children, right under left, keeps the stack's characters in order; the pruning iterator pushes only non-empty children and so keeps every stacked rope non-empty |
| ConcatIterators.FirstLeaf | src/main/kotlin/net/ropes4k/impl/ConcatenationRopeIteratorImpl.kt:46-59 | the descent to the first leaf keeps the characters of leaf plus stack; unpruned, it lands on a leaf, and the walk still ends in the rightmost leaf of the stack's bottom rope |
| ConcatIterators.LastLeaf | src/main/java/net/ropes4k/impl/ConcatenationRopeReverseIteratorImpl.java:64-78 | the descent pushing left then right reaches the rightmost leaf and keeps the characters of stack plus leaf; the reverse walk still ends in the leftmost leaf of the stack's bottom rope |
| ConcatIterators.SeekForward | src/main/kotlin/net/ropes4k/impl/ConcatenationRopeIteratorImpl.kt:67-93 | moving forward `amount` keeps the walk's invariant and lands on the character at `pos + amount`, or reports the end with `pos` restored to the last index; the leaf the walk ends in does not change |
| ConcatIterators.SeekBackward | src/main/java/net/ropes4k/impl/ConcatenationRopeReverseIteratorImpl.java:87-110 | the reverse walk's move lands on the character at `pos - amount`, or reports the beginning; the leaf the walk ends in does not change |
| ConcatIterators.ConcatIterator.constructor | src/main/kotlin/net/ropes4k/impl/ConcatenationRopeIteratorImpl.kt:46-59 | after `initialize` the walk is before the first character: `pos = -1`, all characters remaining |
| ConcatIterators.ConcatIterator.CanMoveBackwards | src/main/kotlin/net/ropes4k/impl/ConcatenationRopeIteratorImpl.kt:35-37 | moving back `a` is allowed exactly when `currentRopePos - a >= -1`, staying inside the current leaf |
| ConcatIterators.ConcatIterator.HasNext | src/main/kotlin/net/ropes4k/impl/ConcatenationRopeIteratorImpl.kt:39-41 | `hasNext()` holds when characters remain, and with nothing remaining only when empty leaves are stacked; for the pruning iterator it is exact. After the last character, the unpruned walk answers true exactly when the rope's rightmost leaf is empty |
| ConcatIterators.ConcatIterator.Skip | src/main/kotlin/net/ropes4k/impl/ConcatenationRopeIteratorImpl.kt:101-103 | `skip(n)` records `n` for the next `next()` and changes nothing else |
| ConcatIterators.ConcatIterator.MoveBackwards | src/main/kotlin/net/ropes4k/impl/ConcatenationRopeIteratorImpl.kt:61-65 | `moveBackwards(a)` fails with IllegalArgument and no change unless allowed, else lowers both counters by `a` |
| ConcatIterators.ConcatIterator.MoveForward | src/main/kotlin/net/ropes4k/impl/ConcatenationRopeIteratorImpl.kt:67-93 | `moveForward(a)` advances `pos` by `a` onto the character there, or fails (IllegalArgument; NoSuchElement for the pruning iterator) with `pos` restored to the last index |
| ConcatIterators.ConcatIterator.Next | src/main/kotlin/net/ropes4k/impl/ConcatenationRopeIteratorImpl.kt:95-99 | `next()` after `skip(n)` yields the character at `pos + n + 1` and resets the skip; successive calls yield the characters in order |
| ConcatIterators.NewConcatIterator | src/main/kotlin/net/ropes4k/impl/ConcatenationRopeIteratorImpl.kt:26-33 | a start outside `[0, length]` is refused with IllegalArgument; otherwise `pos = start - 1` and `content[start..]` remains |
| ConcatIterators.ConcatReverseIterator.constructor | src/main/java/net/ropes4k/impl/ConcatenationRopeReverseIteratorImpl.java:64-78 | after `initialize`, `pos = length` and the whole content remains, reversed |
| ConcatIterators.ConcatReverseIterator.CanMoveBackwards | src/main/java/net/ropes4k/impl/ConcatenationRopeReverseIteratorImpl.java:48-50 | moving back `a` is allowed exactly when `currentRopePos + a <= currentRope.length` |
| ConcatIterators.ConcatReverseIterator.HasNext | src/main/java/net/ropes4k/impl/ConcatenationRopeReverseIteratorImpl.java:56-59 | `hasNext()` holds when characters remain, and with nothing remaining only when empty leaves are stacked. After the first character, it answers true exactly when the rope's leftmost leaf is empty |
| ConcatIterators.ConcatReverseIterator.Skip | src/main/java/net/ropes4k/impl/ConcatenationRopeReverseIteratorImpl.java:127-129 | `skip(n)` records `n` and changes nothing else |
| ConcatIterators.ConcatReverseIterator.MoveBackwards | src/main/java/net/ropes4k/impl/ConcatenationRopeReverseIteratorImpl.java:80-85 | `moveBackwards(a)` fails with IllegalArgument and no change unless allowed, else raises both counters by `a` |
| ConcatIterators.ConcatReverseIterator.MoveForward | src/main/java/net/ropes4k/impl/ConcatenationRopeReverseIteratorImpl.java:87-110 | `moveForward(a)` lowers `pos` by `a` onto the character there, or fails with IllegalArgument past the beginning |
| ConcatIterators.ConcatReverseIterator.Next | src/main/java/net/ropes4k/impl/ConcatenationRopeReverseIteratorImpl.java:112-117 | `next()` yields the character at `pos - 1 - skip` and resets the skip; successive calls yield the characters from the end backwards |
| ConcatIterators.NewConcatReverseIterator | src/main/java/net/ropes4k/impl/ConcatenationRopeReverseIteratorImpl.java:35-46 | a start outside `[0, length]` is refused with IllegalArgument; otherwise `pos = length - start` and `content[0, length - start)` remains, reversed |
| SequentialAccess.Adapter.constructor | src/main/kotlin/net/ropes4k/impl/ConcatenationRope.kt:48-49 | the adapter drives an unpruned forward walk over the rope |
| SequentialAccess.Adapter.Length | src/main/kotlin/net/ropes4k/impl/ConcatenationRope.kt:71 | the adapter's length is the rope's |
| SequentialAccess.Adapter.Get | src/main/kotlin/net/ropes4k/impl/ConcatenationRope.kt:51-69 | `get(i)` for `0 <= i < length` is the rope's i-th character by whichever route; past the end IllegalArgument; a fallback to `rope[index]` leaves the walk untouched |
| SequentialAccess.Adapter.SubSequence | src/main/kotlin/net/ropes4k/impl/ConcatenationRope.kt:73-75 | the adapter's `subSequence` is the rope's |
| SequentialAccess.GetForSequentialAccess | src/main/kotlin/net/ropes4k/impl/ConcatenationRope.kt:47-77 | the adapter is built when `iterator(0)` is the node's own walk, else the cast fails with ClassCast; a node with a non-empty left child always gets one |
| JavaRopeUtilities.FibonacciTable | src/main/java/net/ropes4k/impl/RopeUtilities.java:21 | the table has 93 entries, each `F(i)`, all within a `long` |
| JavaRopeUtilities.TableKeepsRecurrence | src/main/java/net/ropes4k/impl/RopeUtilities.java:21 | the table starts 0, 1 and keeps `F[i+2] = F[i+1] + F[i]` |
| JavaRopeUtilities.Int8 | src/main/java/net/ropes4k/impl/ConcatenationRope.java:33 | the `(byte)` cast: in `[-128, 127]`, congruent modulo 256, the value itself when it fits |
| JavaRopeUtilities.JavaDepth | src/main/java/net/ropes4k/impl/ConcatenationRope.java:30-35 | the Java byte depth lies in `[-128, 127]` and is the true depth up to 127 |
| JavaRopeUtilities.AutoRebalance | src/main/java/net/ropes4k/impl/RopeUtilities.java:35-41 | `autoRebalance` keeps the characters, returns the rope itself at byte depth 96 or less, and above it returns the rebalanced form with the same leaves and depth at most the ceiling of log2 of the leaf count; it is the Kotlin `maybeRebalance` up to depth 127 |
| JavaRopeUtilities.SpineDepth | src/main/java/net/ropes4k/impl/ConcatenationRope.java:33 | a left chain of n nodes has byte depth `(byte) n` up to n = 128 |
| JavaRopeUtilities.WrappedDepthSkipsRebalance | src/main/java/net/ropes4k/impl/RopeUtilities.java:35-41 | the chain of 128 nodes has byte depth -128, so `autoRebalance` skips it where `maybeRebalance` rebuilds it |
| JavaRopeUtilities.IsBalanced | src/main/java/net/ropes4k/impl/RopeUtilities.java:95-100 | `isBalanced` is false from byte depth 91 on; from byte depth -2 to 90 it is `F(depth + 2) <= length`; a wrapped depth below -2 indexes the table below 0 |
| Findings.ScanAsWritten | src/main/java/net/ropes4k/impl/FlatCharArrayRope.java:115-128 | the Java array search loop only ever reports a true occurrence |
| Findings.WindowAsWritten | src/main/java/net/ropes4k/impl/FlatCharArrayRope.java:116-126 | one window comparison of that loop only reports a true occurrence |
| Findings.FlatIndexOfAsWritten | src/main/java/net/ropes4k/impl/FlatCharArrayRope.java:92-131 | the Java array `indexOf(sequence, from)`: -1 for an empty pattern, the character search for one character, and only true occurrences otherwise |
| Findings.FlatSearchSkipsOccurrence | src/main/java/net/ropes4k/impl/FlatCharArrayRope.java:118-119 | it answers -1 for "bb" in "abb", where "bb" occurs at 1 |
| Findings.GetEach | src/main/kotlin/net/ropes4k/impl/ReverseRope.kt:72 | `get(j)` for `j` in `[from, from + n)` emits those characters in order |
| Findings.ReverseWriteAsWritten | src/main/kotlin/net/ropes4k/impl/ReverseRope.kt:70-73 | the Kotlin reversed range `write` refuses every offset but 0, and from 0 emits the first `length` characters |
| Findings.ReverseWriteRefusesOffset | src/main/kotlin/net/ropes4k/impl/ReverseRope.kt:71 | writing one character at offset 1 of the reversal of "abc" is refused, where the intended write gives "b" |
| Findings.PadStartIntended | src/main/kotlin/net/ropes4k/Rope.kt:290-300 | `padStart` as documented never fails: the rope unmodified when long enough, else the pad before it |
| Findings.PadEndIntended | src/main/kotlin/net/ropes4k/Rope.kt:312-322 | `padEnd` as documented: the rope unmodified when long enough, else the pad after it |
| Findings.PadToMinValueRefused | src/main/kotlin/net/ropes4k/impl/AbstractRope.kt:221-222 | padding "a" to `Int.MIN_VALUE` is refused with IllegalArgument, where the documented pads return "a" |
| Findings.TrimStartIntended | src/main/kotlin/net/ropes4k/Rope.kt:170-175 | `trimStart` as documented: a suffix cut only through blanks that does not begin with a blank |
| Findings.TrimEndIntended | src/main/kotlin/net/ropes4k/Rope.kt:248-253 | `trimEnd` as documented: a prefix cut only through blanks that does not end with a blank |
| Findings.TrimsAgreeUnlessAllBlank | src/main/kotlin/net/ropes4k/impl/AbstractRope.kt:169-197 | once the rope holds a character that is not blank, the trims as written are the documented ones |
| Findings.TrimKeepsOneBlank | src/main/kotlin/net/ropes4k/impl/AbstractRope.kt:169-177 | two spaces trim to one space either way, where the documented trims leave nothing |

## Left out

- I/O: the `Writer` and `StringWriter` side of `write` and `toString`. A write returns the characters it emits, `IOException` is not modelled, and on a failed range the characters already sent are not part of the result.
- `matcher` and `matches`: they call into `java.util.regex`, which is not part of this model; only the adapter's `get` they rely on is modelled.
- Serialization: `SerializedRope` and `writeReplace` are Java object-stream I/O.
- Debug output: `Debugging.kt` and `visualize`/`stats` only print.
- Performance: the O(n) traversal and O(log n) edit claims are about running time, not behaviour.
- Interfaces: `FlatRope`, `InternalRope` and `RopeIterator` carry no behaviour of their own.
- `Character.isWhitespace` is a JDK predicate; it is a parameter of the trims.
- Arithmetic on two `Int` arguments inside a guard (such as `offset + length > length` or `fromIndex + sequenceLength - 1`) is taken as exact. Only the hash code, the pad count and the Java byte depth wrap explicitly.
- `FlatCharArrayRope.indexOf(ch, fromIndex)` and the Java `FlatCharArrayRope.indexOf(ch)` read the array directly. They give the same results as `AbstractRope`'s loops, so `Searching.IndexOfChar` and `Searching.IndexOfCharFromStart` stand for them.
- `ConcatenationRopeIteratorImpl.java` is the same code as the Kotlin `ConcatenationRopeIteratorImpl`, and `ConcatIterators.ConcatIterator` models both.
- The Java `RopeUtilities.concatenate` has the Kotlin branches with `autoRebalance` in place of `maybeRebalance`. It is not a separate member: `JavaRopeUtilities.AutoRebalance` states the difference.
- Edits.JavaAppend: built on `Concatenating.Concatenate`, so its tree can differ from the Java one when the byte depth wraps. The characters cannot differ.
- Edits.JavaAppendRange: built on `Concatenating.Concatenate`, like JavaAppend. It also requires that the argument's `subSequence` does not give a negative-length repeated leaf (`start > end` on a repeated sequence), a rope the model does not represent.
- Edits.JavaDelete: built on `Concatenating.Concatenate`, like JavaAppend. It requires that neither part gives a negative-length repeated leaf.
- Edits.JavaInsert: built on `Concatenating.Concatenate`, like JavaAppend.
- Edits.KotlinAppendRange: requires that the argument's `subSequence`, where it is asked, does not give a negative-length repeated leaf.
- Edits.Wrap: a rope argument is kept as a snapshot of its characters. The real leaf asks the rope on every `get` and iteration, so what it does out of range is the rope's; only `subSequence`, in `Edits.WrapRange`, is modelled as asking the rope.
- Edits.KotlinDelete: requires that neither part gives a negative-length repeated leaf; with `end < start` the part between is kept twice, as in the code.
- Ropes.Valid: a `RepeatedCharacterSequence` with a negative count is not a valid leaf, so no operation is stated for such a rope. `CharSequences.ToString` and `RopeOps.FlatToString` state its NegativeArraySize failure.
- Searching.IndexOfSequence: states nothing about a pattern of two characters or more when `fromIndex < 0`. There the search reads before the start, and the result depends on what `get` does at a negative index.
- ConcatIterators.ConcatIterator.Skip, MoveForward and MoveBackwards require a non-negative amount. The code's behaviour for a negative amount is not modelled.
- ConcatIterators.ConcatReverseIterator.Skip, MoveForward and MoveBackwards require a non-negative amount, for the same reason.
- ConcatIterators.ConcatIterator.HasNext: with nothing left, the exact answer is stated only once a character has been read (`currentPos >= 0`), the state in which every loop of the library asks. The error cases of those loops use `RopeOps.OverrunsEnd` and `RopeOps.OverrunsStart`, which are stated on the rope's tree and not derived from a run of the iterator class.
- Trimming.Trim: on an all-blank rope whose forward walk does not overrun, whether `trimEnd` of the part kept overruns depends on the tree `subSequence` builds. The contract says only that any error is IllegalArgument.
- JavaRopeUtilities.JavaDepth: `RopeUtilities.depth` answers 0 for a rope that is not an `AbstractRope`. Every rope here is one, so that branch is not modelled.
- Comparing.RopeObject.Equals: `null` stands for every object that is not a rope.

## Findings

| source | as written | input that shows it | evidently intended | confidence | as-written member | corrected member |
|---|---|---|---|---|---|---|
| src/main/java/net/ropes4k/impl/FlatCharArrayRope.java:118-119 | on a mismatch the window moves by the table entry of the text character where the comparison failed, `this.sequence[x]` | `indexOf("bb", 0)` on the array rope "abb" answers -1, though "bb" occurs at 1 | move by the entry of the character under the window's last position, as `AbstractRope.indexOf` does with `me[j]` | high; not executed | Findings.FlatSearchSkipsOccurrence | Searching.IndexOfSequence |
| src/main/kotlin/net/ropes4k/impl/ReverseRope.kt:71 | the range check `offset + length > length` reads the parameter `length`, which shadows the rope's length | `write(out, 1, 1)` on the reversal of "abc" throws IndexOutOfBounds | compare with the rope's length, as the Java `ReverseRope.write` does, and write "b" | high; not executed | Findings.ReverseWriteRefusesOffset | RopeOps.WrittenInRange |
| src/main/kotlin/net/ropes4k/impl/AbstractRope.kt:221-222 | `toLength - length` is computed in `Int` arithmetic and wraps below `Int.MIN_VALUE` | `padStart(Int.MIN_VALUE, ' ')` on "a": the count wraps to `Int.MAX_VALUE` and `concatenate` throws IllegalArgumentException | return the rope unmodified, as documented for every `toLength <= length` | medium; not executed | Findings.PadToMinValueRefused | Findings.PadStartIntended |
| src/main/kotlin/net/ropes4k/impl/AbstractRope.kt:169-177 | the scan's `index` stops on the last character when every character is blank, and that character is kept | `trimStart()` of two spaces gives one space | remove all leading white space, as documented, giving the empty rope | medium; not executed | Findings.TrimKeepsOneBlank | Findings.TrimStartIntended |
