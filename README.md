# MiniSTL core in Dafny

A Dafny model of the core of MiniSTL, an SGI-style clone of the C++ standard template
library. One module per source file:

- **Ordered trees.** `TreeShape` holds the node links shared by `bs_tree` and `rb_tree`. Nodes
  are slots of an arena numbered from 1, node 0 is the header and `Nil` is the null link; a
  ghost tree value ties the links to the in-order sequence of the nodes.
  - `BsTree` is the unbalanced search tree: `minimum`/`maximum`, iterator `incre`/`decre`,
    `find`, `lower_bound`, `upper_bound`, `equal_range`, `count`, `insert_aux`,
    `insert_unique`, `insert_equal`, `erase_aux`, the erases, `clear` and the deep `copy`.
  - `RbTree` is the red-black tree's colour tag, iterator `decre` and header accessors.
- **Hash table.** `Hashtable` is a sequence of bucket chains with an abstract hash function
  and key extractor, and the cross-bucket iterator. `HashtableGroups` proves that equal keys
  stay next to each other in iteration order.
- **Lists.** `List` is the circular doubly linked list with a dummy node, over a node store
  keyed by address. `ListSort` is its 64-counter merge sort. `ForwardList` is the singly
  linked chain helpers.
- **Deque.** `Deque` covers the buffer size, the iterator's (node, cur, first, last)
  arithmetic, `initialize_map`, the push and pop paths, `at` and `erase(pos)`.
- **Algorithms.** `Algo`, `AlgoSet`, `Sort`, `Numeric` and `AlgoBase` work over arrays and
  sequences. `IteratorBase` gives distance/advance, and `IteratorAdaptor` the reverse
  iterator and the inserters.
- **Memory.** `Uninitialized` is the fills and copies into raw storage. `Alloc` is the
  two-level allocator's free lists and chunk pool.
- **Small pieces.** `Pair`, `HashFun` (string and integral hashes) and `FunctionBase` (the
  functors, identity elements and the subtractive random number generator).

General choices:

- Ordered algorithms and trees use `int` keys with `<` for the default comparator.
  Equality-based algorithms are generic.
- `size_t` and `unsigned long` are 64 bits wide. Wrap-around is written out where the source
  depends on it (the string hash, the random number generator).
- Pointers into contiguous storage are array indices. Allocator addresses are integers.
- Where a line of the source is plainly broken, the model follows the evident intent. The
  broken lines the model reads past are listed under Left out, and the ones with an
  observable consequence under Findings.

## Model

| member | source | states |
|---|---|---|
| Pair.MakePair | Util/pair.hpp:63-66 | make_pair(a, b) holds a as `first` and b as `second` |
| Pair.EqualIsStructural | Util/pair.hpp:32-35 | operator== holds exactly when both components are equal |
| Pair.LessIsStrictTotal | Util/pair.hpp:37-41 | with strict total component orders, the lexicographic operator< is irreflexive, transitive and total on distinct pairs |
| Pair.Trichotomy | Util/pair.hpp:37-61 | exactly one of x < y, x == y, x > y holds; <= is < or ==, >= is > or == |
| Pair.Swap | Util/pair.hpp:26-29 | swap exchanges both components of the two pairs |
| Pair.SwapTwiceRestores | Util/pair.hpp:26-29 | swapping twice gives back the original pairs |
| Uninitialized.UninitializedCopy | Allocator/uninitialized.hpp:12-30 | constructs a copy of each source element in the raw slots [result, result+n), returns result+n, and leaves every other slot alone |
| Uninitialized.UninitializedCopyN | Allocator/uninitialized.hpp:42-66 | copies count elements, returns both advanced positions; slot result+k holds a copy of source element first+k; other slots unchanged |
| Uninitialized.UninitializedFill | Allocator/uninitialized.hpp:69-86 | every raw slot in [first, last) holds a constructed x; the rest unchanged |
| Uninitialized.UninitializedFillN | Allocator/uninitialized.hpp:88-101 | n slots (none when n <= 0) hold a constructed x and first+n is returned; the rest unchanged |
| IteratorBase.RandomDistance | Iterator/iterator_base.hpp:76-81 | the random-access distance d satisfies first + d == last |
| IteratorBase.InputDistance | Iterator/iterator_base.hpp:83-90 | counting increments from first to last gives the random-access distance, never negative |
| IteratorBase.RandomAdvance | Iterator/iterator_base.hpp:99-103 | advancing by n moves the iterator exactly n positions |
| IteratorBase.BidirectionalAdvance | Iterator/iterator_base.hpp:105-112 | n increments (or -n decrements) land where the random-access advance lands |
| IteratorBase.InputAdvance | Iterator/iterator_base.hpp:114-118 | for n >= 0, n increments land where the random-access advance lands |
| IteratorBase.AdvanceThenDistance | Iterator/iterator_base.hpp:69-118 | for input iterators and n >= 0, counting the distance from i to where advance by n lands gives n back |
| IteratorBase.BidirectionalAdvanceThenDistance | Iterator/iterator_base.hpp:69-112 | for bidirectional iterators and any n, counting the distance between i and where advance by n lands, from the earlier to the later, gives abs(n) |
| IteratorBase.RandomAdvanceThenDistance | Iterator/iterator_base.hpp:69-103 | for random-access iterators and any n, the distance from i to where advance by n lands is n |
| HashFun.StrHashStep | Container/Associative/hash_fun.hpp:11-18 | the empty string hashes to 0 and each further character updates h to 5h + c modulo 2^64 |
| HashFun.StrHashIsPolynomial | Container/Associative/hash_fun.hpp:11-18 | the string hash is the polynomial sum of c_i * 5^(n-1-i), reduced modulo 2^64 |
| HashFun.HashString | Container/Associative/hash_fun.hpp:11-18 | the loop over the characters before the terminating NUL computes that polynomial hash |
| HashFun.HashCharPtr | Container/Associative/hash_fun.hpp:21-24 | hash<char*> is the string hash of the characters before the NUL |
| HashFun.HashConstCharPtr | Container/Associative/hash_fun.hpp:26-29 | hash<const char*> is the string hash of the characters before the NUL |
| HashFun.ToSizeT | Container/Associative/hash_fun.hpp:32-75 | the conversion to size_t gives the value congruent to x modulo 2^64, and x itself when x >= 0 |
| HashFun.HashSignedChar | Container/Associative/hash_fun.hpp:42-45 | hash<signed char> is the unsigned-char value: below 256 and congruent to x modulo 256 |
| HashFun.IntegralHashesInjective | Container/Associative/hash_fun.hpp:32-75 | the long hash is injective, the unsigned long hash is the identity, and non-negative values hash to themselves |
| HashFun.SignedCharHashOfMinusOne | Container/Associative/hash_fun.hpp:32-45 | hash<signed char>(-1) is 255 while hash<char>(-1) is 2^64 - 1 |
| AlgoBase.IterSwap | Algorithms/algobase.hpp:12-17 | iter_swap exchanges the two entries, keeps the others and the multiset of the array |
| AlgoBase.Swap | Algorithms/algobase.hpp:19-24 | swap returns the two values exchanged |
| AlgoBase.Min | Algorithms/algobase.hpp:30-33 | min is a lower bound of both arguments, one of them, and x on a tie |
| AlgoBase.Max | Algorithms/algobase.hpp:35-38 | max is an upper bound of both arguments and one of them |
| AlgoBase.MinMaxByProperties | Algorithms/algobase.hpp:40-48 | under a strict weak ordering the comparator versions return a least and a greatest argument, x on incomparable arguments |
| AlgoBase.MinMaxDefaultIsLess | Algorithms/algobase.hpp:30-48 | min and max are the comparator versions instantiated with < |
| AlgoBase.Copy | Algorithms/algobase.hpp:60-117 | the destination range holds the old source range, result + n is returned, everything else unchanged |
| AlgoBase.CopyBackward | Algorithms/algobase.hpp:122-173 | copies back to front so that [result - n, result) holds the old source range, returns result - n, everything else unchanged |
| AlgoBase.CopyN | Algorithms/algobase.hpp:178-203 | copies count elements and returns both advanced positions; everything else unchanged |
| AlgoBase.Fill | Algorithms/algobase.hpp:208-212 | every slot of [first, last) holds value; the rest unchanged |
| AlgoBase.FillN | Algorithms/algobase.hpp:214-219 | n slots (none when n <= 0) hold value and first + n is returned; the rest unchanged |
| Numeric.FoldLeftAppend | Algorithms/numeric.hpp:8-13 | accumulating a concatenation accumulates the second part starting from the result of the first |
| Numeric.FoldPlusIsSum | Algorithms/numeric.hpp:8-13 | accumulate with plus gives init plus the sum of the range |
| Numeric.Accumulate | Algorithms/numeric.hpp:8-13 | the loop folds op over the range from left to right, starting at init |
| Numeric.InnerProductAsWritten | Algorithms/numeric.hpp:15-23 | as written, the comparator overload combines each pair with op1 in place of op2 |
| Numeric.InnerProductAsWrittenExample | Algorithms/numeric.hpp:21 | on [1] and [2] with init 0, plus and multiplies, the code as written gives 3 where the intended inner product is 2 |
| Numeric.InnerProduct | Algorithms/numeric.hpp:15-23 | the loop folds op1 over op2(a[k], b[k]) for the first |a| pairs, starting at init |
| Numeric.InnerProductDefaultIsDot | Algorithms/numeric.hpp:15-19 | with plus and multiplies it is init plus the sum of a[k] * b[k] |
| Numeric.AdjacentDifference | Algorithms/numeric.hpp:39-54 | the output starts with the first element, then holds op(s[i], s[i-1]) for each later i; returns result + n; the rest unchanged |
| Numeric.AdjacentDifferenceTelescopes | Algorithms/numeric.hpp:39-54 | with minus, the running sums of the differences give back the original elements |
| Numeric.PowAdd | Algorithms/numeric.hpp:61-81 | for an associative, commutative operation x^(m+n) == x^m op x^n |
| Numeric.PowSquare | Algorithms/numeric.hpp:61-81 | (x op x)^n == x^(2n), the step repeated squaring relies on |
| Numeric.PowerStepAsWrittenKeepsN | Algorithms/numeric.hpp:73-78 | as written, line 77 shifts without assigning, so n never shrinks and the loop never ends for n == 1 |
| Numeric.Power | Algorithms/numeric.hpp:61-81 | repeated squaring computes x combined with itself n times (the identity element for n == 0) |
| Numeric.Iota | Algorithms/numeric.hpp:83-87 | slot first + k holds init + k for each slot of [first, last); the rest unchanged |
| FunctionBase.DivModIdentity | Function/function_base.hpp:55-67 | divides and modulus truncate toward zero: q*y + r == x, |r| < |y|, r takes the sign of x |
| FunctionBase.NegMul | Function/function_base.hpp:55-67 | sign rules for multiplies |
| FunctionBase.IdentityElement | Function/function_base.hpp:76-91 | 0 for plus and 1 for multiplies leave every value unchanged on either side |
| FunctionBase.LessEqualAsWrittenRejectsLess | Function/function_base.hpp:129-134 | as written less_equal(1, 2) is false although 1 < 2 |
| FunctionBase.RelationalConsistent | Function/function_base.hpp:93-134 | the relational function objects agree: <= is < or ==, <= is not >, >= is > or ==, > is < swapped, != is not == |
| FunctionBase.LogicalDeMorgan | Function/function_base.hpp:136-156 | logical_and, logical_or and logical_not obey De Morgan's laws |
| FunctionBase.SelectMakePair | Function/function_base.hpp:158-197 | select1st and select2nd recover the components of a pair; project1st and project2nd return the selected argument |
| FunctionBase.WriteIndexInRange | Function/function_base.hpp:220-221 | each of the 54 seeding steps writes a slot in [0, 54) |
| FunctionBase.WriteIndexInverse | Function/function_base.hpp:220-221 | the slot map i -> 21(i+1) mod 55 - 1 is its own inverse, so the 54 steps write 54 distinct slots |
| FunctionBase.Filled | Function/function_base.hpp:218-225 | the seeding recurrence keeps 55 slots and puts the seed in slot 54 |
| FunctionBase.FilledAgree | Function/function_base.hpp:218-225 | after n steps the slots written so far do not depend on the previous table |
| FunctionBase.SeedingIgnoresOldTable | Function/function_base.hpp:217-225 | the seeded table is a function of the seed alone |
| FunctionBase.SeededWords | Function/function_base.hpp:217-225 | every seeded slot is a 32-bit value |
| FunctionBase.FilledWords | Function/function_base.hpp:218-225 | the running values k and s of the seeding loop stay 32-bit |
| FunctionBase.MixPass | Function/function_base.hpp:227-229 | a mixing pass keeps the 55 slots |
| FunctionBase.Mix | Function/function_base.hpp:226-230 | repeated passes keep the 55 slots |
| FunctionBase.MixPassWords | Function/function_base.hpp:226-229 | a mixing pass keeps every slot a 32-bit value |
| FunctionBase.SubtractiveRng.constructor | Function/function_base.hpp:235 | substractive_rng(seed) leaves the table seeded then mixed four times, with indices 0 and 31 |
| FunctionBase.SubtractiveRng.Default | Function/function_base.hpp:236 | the default constructor leaves the table that seeding with 161803398 and four mixing passes produce, whatever the fresh array held, with indices 0 and 31 |
| FunctionBase.SubtractiveRng.Initialized | Function/function_base.hpp:217-233 | initialized(seed) sets the table to the mixed seeded table and the indices to 0 and 31 |
| FunctionBase.SubtractiveRng.SeedTable | Function/function_base.hpp:218-225 | the seeding loop writes the recurrence into the table, all 32-bit values |
| FunctionBase.SubtractiveRng.MixTable | Function/function_base.hpp:226-230 | the four passes apply Mix to the table |
| FunctionBase.SubtractiveRng.MixOnePass | Function/function_base.hpp:227-229 | the inner loop subtracts t[(i+31) mod 55] from each t[i] in slot order, modulo 2^32 |
| FunctionBase.SubtractiveRng.Next | Function/function_base.hpp:210-215 | both indices advance mod 55, one slot gets the 32-bit difference, and the result is that slot mod limit, in [0, limit) |
| Alloc.RoundUpLeast | Allocator/alloc.hpp:115-118 | roundUp gives the least multiple of 8 that is at least the request |
| Alloc.FreelistIndexClass | Allocator/alloc.hpp:127-130 | for 1..128 bytes the index lies in [0, 16) and its list serves blocks of exactly roundUp(bytes) |
| Alloc.ChunkPlanAsWrittenOverruns | Allocator/alloc.hpp:174-176 | as written, an empty pool asked for 20 blocks of 8 bytes hands out 20 blocks and moves start_free 160 bytes |
| Alloc.ChunkPlan | Allocator/alloc.hpp:164-179 | the pool hands out nobjs blocks when it holds them all, otherwise as many whole blocks as fit, and never more bytes than it holds |
| Alloc.Chain | Allocator/alloc.hpp:232-241 | refill chains nobjs - 1 blocks |
| Alloc.RefillChainAsWrittenOverlaps | Allocator/alloc.hpp:232-252 | as written, allocate(1) refills with size 1: 19 blocks one byte apart in the 8-byte list, so the first two overlap |
| Alloc.RefillChainApart | Allocator/alloc.hpp:221-243 | with the rounded size the chained blocks are pairwise apart, inside the chunk, and apart from the block returned |
| Alloc.DefaultAlloc.constructor | Allocator/alloc.hpp:107-162 | all 16 free lists empty, the pool is [start, end), no block handed out |
| Alloc.DefaultAlloc.ChunkAlloc | Allocator/alloc.hpp:164-179 | returns the old start_free and moves it by the bytes handed out, as ChunkPlan says |
| Alloc.DefaultAlloc.Refill | Allocator/alloc.hpp:221-243 | returns the chunk's first block as live and threads the others onto the list; an exhausted pool changes nothing |
| Alloc.DefaultAlloc.Allocate | Allocator/alloc.hpp:245-260 | large requests go to malloc; otherwise the list head is popped, or refill's first block is returned when the list is empty; other lists untouched; the block is new and apart from every live block |
| Alloc.DefaultAlloc.Deallocate | Allocator/alloc.hpp:262-271 | a pooled block is pushed onto the head of its list and stops being live; large blocks go back to free |
| Alloc.DefaultAlloc.Reallocate | Allocator/alloc.hpp:273-285 | two large sizes go to realloc; the same size class returns p unchanged; otherwise a new live block of the new class |
| Alloc.LifoReuse | Allocator/alloc.hpp:245-271 | deallocate then allocate of the same size class hands back the same block |
| Alloc.BuildChain | Allocator/alloc.hpp:232-241 | the refill loop links chunk + sz*(k+1) for k < nobjs - 1, in order |
| Alloc.InstallKeepsSound | Allocator/alloc.hpp:227-242 | installing refill's chain keeps live blocks, listed blocks and the pool pairwise apart |
| Alloc.FreshApart | Allocator/alloc.hpp:232-241 | the blocks refill carves from the chunk are pairwise apart |
| IteratorAdaptor.BackInsertIterator.constructor | Iterator/iterator_adaptor.hpp:22 | the inserter refers to the given container |
| IteratorAdaptor.BackInsertIterator.Assign | Iterator/iterator_adaptor.hpp:26-29 | assignment appends v at the back |
| IteratorAdaptor.BackInsertIterator.AssignAll | Iterator/iterator_adaptor.hpp:24-34 | assigning vs in turn appends them in order |
| IteratorAdaptor.FrontInsertIterator.constructor | Iterator/iterator_adaptor.hpp:58 | the inserter refers to the given container |
| IteratorAdaptor.FrontInsertIterator.Assign | Iterator/iterator_adaptor.hpp:62-65 | assignment prepends v |
| IteratorAdaptor.FrontInsertIterator.AssignAll | Iterator/iterator_adaptor.hpp:60-69 | assigning vs in turn leaves them in reverse order at the front |
| IteratorAdaptor.Reverse | Iterator/iterator_adaptor.hpp:60-69 | the reversal used by front_inserter: same length, element k is the (n-1-k)th |
| IteratorAdaptor.InsertIterator.constructor | Iterator/iterator_adaptor.hpp:95-96 | the inserter refers to the given container and position |
| IteratorAdaptor.InsertIterator.Assign | Iterator/iterator_adaptor.hpp:101-105 | for a container whose positions are indices, v is inserted before the position, which then moves past it |
| IteratorAdaptor.InsertIterator.AssignAll | Iterator/iterator_adaptor.hpp:98-105 | for a container whose positions are indices, assigning vs in turn inserts them at the position in order |
| IteratorAdaptor.ReverseIterator.constructor | Iterator/iterator_adaptor.hpp:137 | the reverse iterator wraps the given base |
| IteratorAdaptor.ReverseIterator.Deref | Iterator/iterator_adaptor.hpp:147-150 | dereferencing gives the element just before the base |
| IteratorAdaptor.ReverseIterator.Increment | Iterator/iterator_adaptor.hpp:156-159 | ++ moves the base back one |
| IteratorAdaptor.ReverseIterator.PostIncrement | Iterator/iterator_adaptor.hpp:161-165 | postfix ++ moves the base back and returns the old base |
| IteratorAdaptor.ReverseIterator.Decrement | Iterator/iterator_adaptor.hpp:167-170 | -- moves the base forward one |
| IteratorAdaptor.ReverseIterator.PostDecrement | Iterator/iterator_adaptor.hpp:172-176 | postfix -- moves the base forward and returns the old base |
| IteratorAdaptor.ReverseIterator.Add | Iterator/iterator_adaptor.hpp:178-180 | + n gives a new reverse iterator n positions back in the base |
| IteratorAdaptor.ReverseIterator.AddAssign | Iterator/iterator_adaptor.hpp:182-185 | += n moves the base back n |
| IteratorAdaptor.ReverseIterator.Sub | Iterator/iterator_adaptor.hpp:187-189 | - n gives a new reverse iterator n positions forward in the base |
| IteratorAdaptor.ReverseIterator.SubAssignAsWritten | Iterator/iterator_adaptor.hpp:191-194 | as written, -= n also moves the base back n |
| IteratorAdaptor.ReverseIterator.SubAssign | Iterator/iterator_adaptor.hpp:191-194 | -= n moves the base forward n, the inverse of += |
| IteratorAdaptor.ReverseIterator.At | Iterator/iterator_adaptor.hpp:196-198 | [n] is the element n places further in reverse order |
| IteratorAdaptor.SubAssignAsWrittenDoesNotUndo | Iterator/iterator_adaptor.hpp:182-194 | as written, += 1 then -= 1 from base 5 ends at base 3 |
| IteratorAdaptor.SubAssignUndoesAddAssign | Iterator/iterator_adaptor.hpp:182-194 | with the corrected -=, += n then -= n restores the iterator |
| IteratorAdaptor.Difference | Iterator/iterator_adaptor.hpp:237-243 | x - y is y.base() - x.base(), zero exactly when x == y |
| IteratorAdaptor.LessMatchesDifference | Iterator/iterator_adaptor.hpp:207-243 | the corrected < holds exactly when x - y < 0 and is total; the written one holds when x - y > 0 |
| IteratorAdaptor.LessAsWrittenDisagrees | Iterator/iterator_adaptor.hpp:207-211 | there are x, y one reverse step apart with x before y where the written < says no |
| Sort.PartitionForward | Algorithms/sort.hpp:12-29 | the forward __partition returns p with pred true on [first, p) and false on [p, last), permutes the array and leaves the rest alone |
| Sort.PartitionBidirectional | Algorithms/sort.hpp:31-55 | the bidirectional __partition gives the same guarantee by swapping from both ends |
| Sort.FilterMembers | Algorithms/sort.hpp:81-100 | every element of a group comes from the input and satisfies (or fails) pred as its group says |
| Sort.FilterSplitsPerm | Algorithms/sort.hpp:81-100 | the true group and the false group together are a permutation of the input |
| Sort.Distribute | Algorithms/sort.hpp:87-98 | the loop puts the pred-true elements at first.. and the others in the buffer, each group in input order |
| Sort.StablePartitionBuffered | Algorithms/sort.hpp:81-100 | the buffered branch returns p where [first, p) is the true group and [p, last) the false group, each in input order |
| Sort.UnguardedPartition | Algorithms/sort.hpp:141-155 | given a pivot taken from the range, returns cut with nothing greater than the pivot before it and nothing less from it on, as a permutation |
| Sort.UnguardedLinearInsert | Algorithms/sort.hpp:157-173 | with a sentinel not greater than val earlier, the larger elements shift up one slot and val lands just after the last element not greater than it |
| Sort.ShiftedPerm | Algorithms/sort.hpp:157-173 | the shift with the old last element written into the gap is a permutation |
| Sort.ShiftedSorted | Algorithms/sort.hpp:157-173 | that shift keeps a sorted prefix sorted one slot longer |
| Sort.LinearInsert | Algorithms/sort.hpp:175-186 | inserting a[last] into the sorted [first, last) leaves [first, last] sorted, as a permutation |
| Sort.InsertionSort | Algorithms/sort.hpp:188-196 | [first, last) ends sorted, a permutation of the array, the rest unchanged |
| Sort.UnguardedInsertionSort | Algorithms/sort.hpp:198-204 | with a sorted prefix whose head is not greater than any later element, the whole run ends sorted, as a permutation |
| Sort.SortedHeadIsLeast | Algorithms/sort.hpp:198-212 | the head of a sorted run is its least element, so it serves as the sentinel |
| Sort.FinalInsertionSort | Algorithms/sort.hpp:206-215 | sorts the first 16 elements guarded and the rest unguarded; [first, last) ends sorted, as a permutation |
| Sort.Lg | Algorithms/sort.hpp:217-223 | __lg(n) is the k with 2^k <= n < 2^(k+1) |
| Algo.FirstWhereUnique | Algorithms/algo.hpp:14-99 | the "first position satisfying p, or last" answer is unique, so every find variant computes the same position |
| Algo.FindLinear | Algorithms/algo.hpp:16-21 | __find returns the first position holding val, or last; it is below last exactly when val occurs |
| Algo.FindIfLinear | Algorithms/algo.hpp:24-29 | __find_if returns the first position satisfying pred, or last |
| Algo.FindUnrolled | Algorithms/algo.hpp:32-64 | the four-way unrolled random-access __find returns the same first position as the linear one |
| Algo.FindIfUnrolled | Algorithms/algo.hpp:67-99 | the four-way unrolled random-access __find_if returns the same first position as the linear one |
| Algo.FindFirstOf | Algorithms/algo.hpp:117-127 | returns the first element of the first range matching some element of the second, or last1 |
| Algo.FindEnd | Algorithms/algo.hpp:137-157 | the forward __find_end returns the start of the last occurrence of the second range, or last1 when there is none |
| Algo.MatchShift | Algorithms/algo.hpp:137-157 | a match found by searching from a later start is a match at the shifted position |
| Algo.AdjacentFind | Algorithms/algo.hpp:199-210 | returns the first i with pred(s[i], s[i+1]), or last when no adjacent pair qualifies |
| Algo.CountWhere | Algorithms/algo.hpp:212-233 | the reference count is at most the length of the range |
| Algo.CountWhereEqIsMultiplicity | Algorithms/algo.hpp:215-222 | counting elements equal to val gives val's multiplicity |
| Algo.Cnt | Algorithms/algo.hpp:215-222 | cnt returns the number of elements equal to val |
| Algo.CountIf | Algorithms/algo.hpp:226-233 | count_if returns the number of elements satisfying pred |
| Algo.Search | Algorithms/algo.hpp:238-265 | returns the first position where the second range occurs, or last1 when it never does |
| Algo.SearchN | Algorithms/algo.hpp:270-301 | returns the first position of cnt consecutive elements matching val (first when cnt <= 0), or last when there is none |
| Algo.LowerBound | Algorithms/algo.hpp:307-327 | on a sorted range, returns the first position whose element is not less than val |
| Algo.UpperBound | Algorithms/algo.hpp:331-351 | on a sorted range, returns the first position whose element is greater than val |
| Algo.SortedSub | Algorithms/algo.hpp:357-382 | a sub-range of a sorted range is sorted, which the halving loop relies on |
| Algo.EqualRange | Algorithms/algo.hpp:357-382 | on a sorted range, returns [lo, hi) holding exactly the elements equal to val, smaller ones before, larger after |
| Algo.BinarySearch | Algorithms/algo.hpp:386-391 | on a sorted range, answers true exactly when val occurs |
| Algo.Median | Algorithms/algo.hpp:399-414 | median returns the one of a, b, c that lies between the other two |
| Algo.MaxElement | Algorithms/algo.hpp:419-429 | returns the first position of a greatest element, or first on an empty range |
| Algo.MinElement | Algorithms/algo.hpp:434-444 | returns the first position of a least element, or first on an empty range |
| Algo.SwapRanges | Algorithms/algo.hpp:456-461 | the two non-overlapping ranges exchange contents, the end of the second is returned, all else unchanged |
| Algo.SwapAt | Algorithms/algo.hpp:459 | one round of swap_ranges: the entries at i and j are exchanged and every other entry of both arrays keeps its value |
| Algo.Transform | Algorithms/algo.hpp:465-470 | result + i holds op(s[i]) for each i; returns result + n; all else unchanged |
| Algo.Transform2 | Algorithms/algo.hpp:474-480 | result + i holds op(s1[i], s2[i]) for each i; returns result + n; all else unchanged |
| AlgoSet.IncludesIsSubMultiset | Algorithms/algo_set.hpp:18-30 | on sorted ranges, includes holds exactly when range 2 is contained in range 1 as a multiset |
| AlgoSet.UnionCount | Algorithms/algo_set.hpp:35-56 | the union holds each value as often as the larger of its two counts |
| AlgoSet.IntersectionCount | Algorithms/algo_set.hpp:61-78 | the intersection holds each value as often as the smaller of its two counts |
| AlgoSet.DifferenceCount | Algorithms/algo_set.hpp:83-101 | the difference holds each value count1 - count2 times, or not at all |
| AlgoSet.SymmetricDifferenceCount | Algorithms/algo_set.hpp:107-128 | the symmetric difference holds each value |count1 - count2| times |
| AlgoSet.OutputsFromInputs | Algorithms/algo_set.hpp:35-128 | every output element comes from one of the inputs (from range 1 for intersection and difference) |
| AlgoSet.OutputsSorted | Algorithms/algo_set.hpp:10-128 | sorted inputs give a sorted output for all four operations |
| AlgoSet.Includes | Algorithms/algo_set.hpp:18-30 | the loop answers the reference definition, which on sorted inputs is multiset containment |
| AlgoSet.CopyTail | Algorithms/algo_set.hpp:100 | the closing copy appends the rest of a range to the output written so far |
| AlgoSet.CopyTails | Algorithms/algo_set.hpp:55 | the two closing copies append both remaining tails |
| AlgoSet.UnionMerge | Algorithms/algo_set.hpp:39-54 | after the merge loop, the output so far followed by both tails is the union |
| AlgoSet.SetUnion | Algorithms/algo_set.hpp:35-56 | writes exactly the union from result and returns its end; range 1's copy is taken on equal heads; all else unchanged |
| AlgoSet.IntersectionMerge | Algorithms/algo_set.hpp:65-76 | the merge loop writes the whole intersection |
| AlgoSet.SetIntersection | Algorithms/algo_set.hpp:61-78 | writes exactly the intersection from result and returns its end; all else unchanged |
| AlgoSet.DifferenceMerge | Algorithms/algo_set.hpp:87-99 | after the merge loop, the output so far followed by range 1's tail is the difference |
| AlgoSet.SetDifference | Algorithms/algo_set.hpp:83-101 | writes exactly the difference from result and returns its end; all else unchanged |
| AlgoSet.SymmetricDifferenceMerge | Algorithms/algo_set.hpp:111-126 | after the merge loop, the output so far followed by both tails is the symmetric difference |
| AlgoSet.SetSymmetricDifference | Algorithms/algo_set.hpp:107-128 | writes exactly the symmetric difference from result and returns its end; all else unchanged |
| ForwardList.Node.constructor | Container/Sequence/forward_list.hpp:17-22 | a new node holds v and links to nothing |
| ForwardList.SplicedAt | Container/Sequence/forward_list.hpp:41-63 | after splicing a run in after position p, the nodes up to p stay, the run follows, then the rest shifted by its length |
| ForwardList.SplicedNothing | Container/Sequence/forward_list.hpp:54-63 | splicing in an empty run changes nothing |
| ForwardList.CutAt | Container/Sequence/forward_list.hpp:41-51 | after cutting out the run after lo through hi, the nodes up to lo stay and the rest shift down |
| ForwardList.Values | Container/Sequence/forward_list.hpp:17-84 | the values along a chain, one per node, in order |
| ForwardList.ValuesAppend | Container/Sequence/forward_list.hpp:17-84 | the values of two runs laid end to end are the two value lists joined |
| ForwardList.ValuesSpliced | Container/Sequence/forward_list.hpp:41-63 | splicing nodes splices their values |
| ForwardList.Reversed | Container/Sequence/forward_list.hpp:66-77 | the reversed chain has the same length with node k taken from position n-1-k |
| ForwardList.ReversedTwice | Container/Sequence/forward_list.hpp:66-77 | reversing twice gives the chain back |
| ForwardList.ReversedAppend | Container/Sequence/forward_list.hpp:66-77 | reversing a + b gives reversed b then reversed a |
| ForwardList.ValuesReversed | Container/Sequence/forward_list.hpp:66-77 | the values along the reversed chain are the values reversed |
| ForwardList.PrevIndex | Container/Sequence/forward_list.hpp:25-38 | the first position whose next is the node, or the chain length when there is none |
| ForwardList.PrevOfNullIsLast | Container/Sequence/forward_list.hpp:56 | on a chain, the predecessor of null is the last node, which is what splice_after looks up |
| ForwardList.MakeLink | Container/Sequence/forward_list.hpp:17-22 | n is linked directly after prev, takes over prev's old successor, and the chain stays a chain with n spliced in |
| ForwardList.Previous | Container/Sequence/forward_list.hpp:25-38 | returns the first node of the chain whose next is the given node, or null when there is none |
| ForwardList.SpliceAfter | Container/Sequence/forward_list.hpp:41-51 | when pos is neither bound, the run (before_first, before_last] moves to just after pos: taken from another chain, both chains stay well formed and the source closes over the gap; taken from pos's own chain with pos outside the run, that chain stays well formed in the moved order; when pos is a bound nothing changes |
| ForwardList.SpliceAfterAll | Container/Sequence/forward_list.hpp:54-63 | the whole chain after head moves to just after pos and head is left empty; an empty chain changes nothing |
| ForwardList.SpliceTarget | Container/Sequence/forward_list.hpp:41-51 | the three relinks place the run after pos in a well-formed chain |
| ForwardList.SpliceSource | Container/Sequence/forward_list.hpp:41-51 | and close the source chain over the gap |
| ForwardList.SpliceWithin | Container/Sequence/forward_list.hpp:41-51 | within one chain, the three relinks leave a well-formed chain in which the run follows pos |
| ForwardList.MovedAfterSlices | Container/Sequence/forward_list.hpp:41-51 | moving a run within a chain: the nodes up to pos, the run, the nodes between pos and the run, the rest (or, with pos beyond the run: the nodes up to the run, those after it up to pos, the run, the rest) |
| ForwardList.MovedAfterPermutes | Container/Sequence/forward_list.hpp:41-51 | moving a run within a chain keeps every node, as often as before |
| ForwardList.MovedAfterIsCutSpliced | Container/Sequence/forward_list.hpp:41-51 | moving a run within a chain is cutting it out and splicing it back in after pos, whose position drops by the run's length when it lay beyond the run |
| ForwardList.Reverse | Container/Sequence/forward_list.hpp:66-77 | reverse returns the old last node, from which the chain runs in reverse order |
| ForwardList.Size | Container/Sequence/forward_list.hpp:79-84 | size counts the nodes from node to null |
| ForwardList.LinkNew | Container/Sequence/forward_list.hpp:286-311 | one loop step: a fresh node holding v is linked after the last one inserted |
| ForwardList.InsertedChain | Container/Sequence/forward_list.hpp:286-311 | linking one more node after the run extends the inserted run |
| ForwardList.InsertAfterFill | Container/Sequence/forward_list.hpp:286-290 | n fresh nodes holding val follow pos, in a well-formed chain whose values are the old values with n copies of val spliced in |
| ForwardList.InsertAfterRange | Container/Sequence/forward_list.hpp:293-312 | one fresh node per value follows pos, in input order, in a well-formed chain |
| List.Elements | Container/Sequence/list.hpp:253-256 | the values from begin() to end(), one per element node, in order |
| List.SelfLoop | Container/Sequence/list.hpp:298-300 | the dummy is its own successor exactly when the list has no element |
| List.Removed | Container/Sequence/list.hpp:645-655 | remove(v) keeps only values from the list and none equal to v |
| List.RemovedCount | Container/Sequence/list.hpp:645-655 | remove(v) keeps every other value exactly as often as it occurred |
| List.RemovedAbsent | Container/Sequence/list.hpp:645-655 | remove(v) of an absent value changes nothing |
| List.Deduped | Container/Sequence/list.hpp:672-688 | unique() keeps the first value and leaves no two equal neighbours |
| List.DedupedMembers | Container/Sequence/list.hpp:672-688 | unique() keeps exactly the values that occur |
| List.DedupedNoRuns | Container/Sequence/list.hpp:672-688 | unique() of a list without equal neighbours changes nothing |
| List.Merged | Container/Sequence/list.hpp:711-731 | merge produces as many values as both lists hold |
| List.MergedPermutes | Container/Sequence/list.hpp:711-731 | merge loses and invents no value: the multiset union of both lists |
| List.MergedSorted | Container/Sequence/list.hpp:711-731 | merging two sorted lists gives a sorted list |
| List.MergedTakes | Container/Sequence/list.hpp:717-723 | the run of x strictly below this list's head goes in front of it, in order |
| List.MergedKeeps | Container/Sequence/list.hpp:724-727 | this list's values not above x's head stay in front, so an element of x passes one of this list only when strictly smaller |
| List.Moved | Container/Sequence/list.hpp:627-642 | transfer(pos, first, last) as values: the run [i, j) is moved to just before position k, all else in order |
| List.MovedPermutes | Container/Sequence/list.hpp:627-642 | a transfer only reorders: the same values, as often as before |
| List.MovedInPlace | Container/Sequence/list.hpp:385-391 | moving a run to either of its own ends changes nothing, as splice's guard and transfer's position == last test at line 630 rely on |
| List.MovedEmpty | Container/Sequence/list.hpp:399-402 | moving an empty run changes nothing |
| List.MovedBack | Container/Sequence/list.hpp:627-642 | moving the run back to where it came from undoes a transfer |
| List.ElementsMoved | Container/Sequence/list.hpp:627-642 | the values along the moved nodes are the moved values |
| List.ReverseRing | Container/Sequence/list.hpp:859-865 | once every node including the dummy has prev and next swapped, the ring reads backwards over the same nodes |
| List.ElementsReversed | Container/Sequence/list.hpp:859-865 | the values along a reversed ring are the values reversed |
| List.Nodes.constructor | Container/Sequence/list.hpp:136-168 | an empty node store |
| List.Nodes.GetNode | Container/Sequence/list.hpp:146 | get_node hands out an address no node uses |
| List.Nodes.Initialize | Container/Sequence/list.hpp:140-144 | a fresh dummy linked to itself forms the empty list; no other node changes |
| List.Nodes.Empty | Container/Sequence/list.hpp:298-300 | empty() holds exactly when the list has no element |
| List.Nodes.Size | Container/Sequence/list.hpp:284-286 | size() counts the steps from begin() to end(): the number of elements |
| List.Nodes.Insert | Container/Sequence/list.hpp:582-601 | a fresh node holding val goes just before position k; the values gain val there; the node set gains exactly it |
| List.Nodes.Erase | Container/Sequence/list.hpp:549-559 | the node at k is unlinked and released, the next position is returned, and the values lose exactly that one |
| List.Nodes.EraseRange | Container/Sequence/list.hpp:561-567 | the nodes [i, j) are erased one by one, last is returned, and the values lose exactly that run; no surviving node changes |
| List.Nodes.FillInsert | Container/Sequence/list.hpp:603-612 | n fresh nodes holding val go before position k and the first of them (or pos when n is 0) is returned |
| List.Nodes.InsertRange | Container/Sequence/list.hpp:614-624 | one fresh node per input value goes before position k, in input order, and the first of them (or pos) is returned |
| List.Nodes.Resize | Container/Sequence/list.hpp:539-547 | resize keeps the first new_sz values when shrinking and appends copies of val when growing |
| List.Nodes.Remove | Container/Sequence/list.hpp:644-655 | remove(val) leaves the values Removed describes and erases only nodes of the list |
| List.Nodes.Unique | Container/Sequence/list.hpp:671-688 | unique() leaves the values Deduped describes and erases only nodes of the list |
| List.Nodes.Reverse | Container/Sequence/list.hpp:858-865 | reverse() leaves the same nodes in reverse order, so the values are reversed |
| List.Nodes.Relink | Container/Sequence/list.hpp:632-640 | the store stays well formed; the node before first now leads to last, the node before pos to first and the node before last to pos, with the prev links mirrored, and no other link changes |
| List.Nodes.TransferWithin | Container/Sequence/list.hpp:626-642 | transfer within one list moves [first, last) to just before pos, keeps the node set, and changes nothing when pos == last |
| List.Nodes.TransferBetween | Container/Sequence/list.hpp:626-642 | transfer from another list moves the run out of it and in before pos; the two lists stay apart and together keep their nodes |
| List.Nodes.SpliceAll | Container/Sequence/list.hpp:375-383 | splice(pos, x) moves all of x before pos and leaves x empty; an empty x changes nothing |
| List.Nodes.SpliceOne | Container/Sequence/list.hpp:385-398 | splice(pos, x, i) from another list moves the one node i before pos |
| List.Nodes.SpliceOneWithin | Container/Sequence/list.hpp:385-398 | within one list, i moves before pos; pos == i or pos == next(i) changes nothing |
| List.Nodes.SpliceRange | Container/Sequence/list.hpp:399-408 | splice(pos, x, first, last) from another list moves [first, last) before pos |
| List.Nodes.SpliceRangeWithin | Container/Sequence/list.hpp:399-408 | within one list, [first, last) moves before pos, pos lying outside it |
| List.Merge | Container/Sequence/list.hpp:710-731 | merge(x) leaves this list holding the merged values, x empty, and the node set of both |
| List.MergeRest | Container/Sequence/list.hpp:729-730 | after the loop, whatever is left of x is transferred to the end and the merge is complete |
| ListSort.ListsSwap | Container/Sequence/list.hpp:340 | list::swap exchanges two dummies, and the family of lists stays well formed |
| ListSort.FirstMoves | Container/Sequence/list.hpp:815 | moving the first value into the empty carry keeps the values of both lists together and leaves carry sorted |
| ListSort.MergeMoves | Container/Sequence/list.hpp:818-828 | merging one sorted counter into another keeps the values of both together and leaves the target sorted and as long as both |
| ListSort.PoolOnly | Container/Sequence/list.hpp:827-829 | when every other list of the pool is empty, the remaining one holds all the values, sorted |
| ListSort.Pow2Below | Container/Sequence/list.hpp:812-824 | a counter holding 2^i values exists only for i below 64, so fill never runs past counter[63] for lists shorter than 2^64 |
| ListSort.NewCounters | Container/Sequence/list.hpp:811-813 | carry and the 64 counters are fresh empty lists beside the list being sorted |
| ListSort.AddCounter | Container/Sequence/list.hpp:812 | each counter comes into being as a fresh empty list |
| ListSort.Start | Container/Sequence/list.hpp:815-816 | splicing the first element into carry starts a round with carry holding one value |
| ListSort.SpliceFirst | Container/Sequence/list.hpp:815 | carry.splice(carry.begin(), *this, begin()) moves the first node of the list into carry |
| ListSort.Full | Container/Sequence/list.hpp:817 | the inner loop test holds exactly when i < fill and counter[i] has values |
| ListSort.MergeInto | Container/Sequence/list.hpp:818-828 | counter[i].merge(x) takes all of x into counter[i] and changes no other list |
| ListSort.SwapCarry | Container/Sequence/list.hpp:819-822 | carry.swap(counter[i]) exchanges the two lists and nothing else |
| ListSort.ClimbOne | Container/Sequence/list.hpp:818-820 | one inner round merges carry into counter[i], swaps them back, and moves i on |
| ListSort.Climb | Container/Sequence/list.hpp:817-821 | the inner loop stops at fill or at an empty counter, with carry holding 2^i sorted values |
| ListSort.Land | Container/Sequence/list.hpp:822-824 | carry lands in counter[i] and fill grows when i reached it |
| ListSort.SortStep | Container/Sequence/list.hpp:815-824 | one round of the outer loop moves one element from the list into the counters |
| ListSort.Distribute | Container/Sequence/list.hpp:814-825 | the outer loop runs until the list is empty, keeping every value in the pool |
| ListSort.Collapse | Container/Sequence/list.hpp:827-828 | the closing merges leave all the values in counter[fill - 1] |
| ListSort.Finish | Container/Sequence/list.hpp:829 | swap(counter[fill - 1]) hands the sorted values to the list |
| ListSort.Gather | Container/Sequence/list.hpp:827-829 | the end of sort(): the list holds all the values, sorted |
| ListSort.SortLong | Container/Sequence/list.hpp:811-829 | for a list with at least one element, the result is a sorted permutation of its values |
| ListSort.Sort | Container/Sequence/list.hpp:806-830 | sort() leaves a sorted permutation of the values; lists of zero or one elements return at once |
| Deque.BufSize | Container/Sequence/deque.hpp:46-49 | a node holds at least one element: the most elements of sz bytes fitting in 512 bytes, and one element of 512 bytes or more |
| Deque.NodeOffset | Container/Sequence/deque.hpp:128-130 | the node offset of operator+= is the floor of offset / buf_size, for negative offsets too |
| Deque.StateAddr | Container/Sequence/deque.hpp:52-162 | a valid iterator's linear position splits into its node and its offset in that node, and cur is that position's address |
| Deque.DequeIter.constructor | Container/Sequence/deque.hpp:52-82 | the default iterator has every pointer null |
| Deque.DequeIter.SetNode | Container/Sequence/deque.hpp:84-88 | set_node moves node and sets first to that node's buffer and last one buffer further; cur is untouched |
| Deque.DequeIter.Increment | Container/Sequence/deque.hpp:93-100 | ++ moves one position on, stepping into the next node's first slot past the last slot |
| Deque.DequeIter.PostIncrement | Container/Sequence/deque.hpp:102-106 | postfix ++ moves on and returns a copy at the old position |
| Deque.DequeIter.Decrement | Container/Sequence/deque.hpp:108-115 | -- moves one position back, stepping into the previous node's last slot from the first slot |
| Deque.DequeIter.PostDecrement | Container/Sequence/deque.hpp:117-121 | postfix -- moves back and returns a copy at the old position |
| Deque.DequeIter.AddAssign | Container/Sequence/deque.hpp:123-135 | += n moves exactly n positions, within the node or across nodes |
| Deque.DequeIter.SubAssign | Container/Sequence/deque.hpp:142-144 | -= n moves exactly n positions back |
| Deque.DequeIter.Clone | Container/Sequence/deque.hpp:81-82 | the copy constructor copies all four pointers |
| Deque.DequeIter.Plus | Container/Sequence/deque.hpp:137-140 | + n is a new iterator n positions on; this one is left alone |
| Deque.DequeIter.Minus | Container/Sequence/deque.hpp:146-149 | - n is a new iterator n positions back |
| Deque.CurIsAddr | Container/Sequence/deque.hpp:90 | dereferencing reads the address of the iterator's position |
| Deque.PosDetermines | Container/Sequence/deque.hpp:155 | two valid iterators at one position agree on all four pointers, so comparing cur alone is sound |
| Deque.DiffIsDistance | Container/Sequence/deque.hpp:171-178 | the iterator difference is the difference of positions |
| Deque.LessIsPosOrder | Container/Sequence/deque.hpp:157-158 | operator< orders iterators by position |
| Deque.EqIsSamePos | Container/Sequence/deque.hpp:155 | operator== holds exactly at the same position |
| Deque.InitLayout | Container/Sequence/deque.hpp:628-631 | finish lands n positions after start |
| Deque.CreateNodes | Container/Sequence/deque.hpp:597-607 | each slot of [nstart, nfinish) gets a fresh buffer, apart from the others |
| Deque.InitializeMap | Container/Sequence/deque.hpp:610-632 | the map has max(8, 2 * num_nodes) slots, the nodes sit in the middle, start is at the first slot and finish n positions later |
| Deque.Els | Container/Sequence/deque.hpp:387-424 | one value for each position from start to finish |
| Deque.ElsAppend | Container/Sequence/deque.hpp:463-469 | constructing at the address of position finish appends the value (the _aux path: lines 880-896) |
| Deque.ElsPrepend | Container/Sequence/deque.hpp:449-455 | constructing at the address of position start - 1 prepends the value (the _aux path: lines 849-863) |
| Deque.ElsDropFront | Container/Sequence/deque.hpp:477-483 | destroying the element at start leaves the rest stored (the _aux path: lines 912-918) |
| Deque.ElsDropBack | Container/Sequence/deque.hpp:484-490 | destroying the element before finish leaves the rest stored (the _aux path: lines 920-926) |
| Deque.PushBackEls | Container/Sequence/deque.hpp:463-469 | either push_back path appends val (the _aux path: lines 880-896) |
| Deque.PushFrontFastEls | Container/Sequence/deque.hpp:449-455 | the fast push_front path prepends val |
| Deque.PushFrontAuxEls | Container/Sequence/deque.hpp:849-863 | push_front_aux prepends val in the new node's last slot |
| Deque.PopFrontEls | Container/Sequence/deque.hpp:477-483 | either pop_front path drops the first element (the _aux path: lines 912-918) |
| Deque.PopBackEls | Container/Sequence/deque.hpp:484-490 | either pop_back path drops the last element, found one slot back or in the previous node's last slot (the _aux path: lines 920-926) |
| Deque.CopyBackwardMap | Algorithms/algobase.hpp:156-163 | copy_backward over deque iterators writes the old [first, last) to just before result and returns result - n; other positions unchanged |
| Deque.CopyMap | Algorithms/algobase.hpp:98-109 | copy over deque iterators writes the old [first, last) from result on and returns result + n; other positions unchanged |
| Deque.CopyBackwardRounds | Algorithms/algobase.hpp:161-162 | n rounds of *--result = *--last move result n places back and leave the window from result on holding the values D places before it, everything else unchanged |
| Deque.CopyRounds | Algorithms/algobase.hpp:103-107 | n rounds of *result = *first move result n places on and leave the window before it holding the values D places after it, everything else unchanged |
| Deque.EraseByFront | Container/Sequence/deque.hpp:1224-1226 | shifting the front part up one place and popping the front removes exactly the element at pos |
| Deque.EraseByBack | Container/Sequence/deque.hpp:1227-1229 | shifting the back part down one place and popping the back removes exactly the element at pos |
| Deque.Deque.Elements | Container/Sequence/deque.hpp:387 | the deque's values from start to finish; there are size() of them |
| Deque.Deque.constructor | Container/Sequence/deque.hpp:610-632 | deque(n), through initialize_map, lays out the map as InitializeMap does, with size() == n |
| Deque.Deque.Size | Container/Sequence/deque.hpp:387 | size() is finish - start, the number of positions between them |
| Deque.Deque.Empty | Container/Sequence/deque.hpp:394 | empty() holds exactly when size() is 0 |
| Deque.Deque.RangeCheckAdmitsSize | Container/Sequence/deque.hpp:397-400 | as written, range_check lets n == size() through, and everything the intended check admits |
| Deque.Deque.RangeCheck | Container/Sequence/deque.hpp:397-400 | the intended check admits exactly the indices below size() |
| Deque.Deque.Index | Container/Sequence/deque.hpp:405-408 | operator[](n) is the n-th element |
| Deque.Deque.At | Container/Sequence/deque.hpp:409-412 | at(n) gives the n-th element, and the out_of_range error exactly when n >= size() |
| Deque.Deque.Front | Container/Sequence/deque.hpp:413-414 | front() is the first element |
| Deque.Deque.Back | Container/Sequence/deque.hpp:415-424 | back() is the last element |
| Deque.Deque.PushBack | Container/Sequence/deque.hpp:463-476 | push_back appends val, on either path |
| Deque.Deque.PushBackAux | Container/Sequence/deque.hpp:880-910 | push_back_aux appends val and moves finish into a fresh node |
| Deque.Deque.PushFront | Container/Sequence/deque.hpp:449-462 | push_front prepends val, on either path |
| Deque.Deque.PushFrontAux | Container/Sequence/deque.hpp:849-878 | push_front_aux prepends val in a fresh node before start's |
| Deque.Deque.PopFront | Container/Sequence/deque.hpp:477-483 | pop_front removes the first element, on either path |
| Deque.Deque.PopFrontAux | Container/Sequence/deque.hpp:912-918 | pop_front_aux removes the first element and moves start to the next node |
| Deque.Deque.PopBack | Container/Sequence/deque.hpp:484-490 | pop_back removes the last element, on either path |
| Deque.Deque.PopBackAux | Container/Sequence/deque.hpp:920-926 | pop_back_aux moves finish to the previous node's last slot and removes that element |
| Deque.Deque.CopyBackwardWithin | Container/Sequence/deque.hpp:1225 | the copy_backward of erase shifts the values of [first, last) to end just before result |
| Deque.Deque.CopyWithin | Container/Sequence/deque.hpp:1228 | the copy of erase shifts the values of [first, last) to start at result |
| Deque.Deque.EraseFront | Container/Sequence/deque.hpp:1224-1231 | the front branch removes exactly the element at idx and returns start + idx |
| Deque.Deque.EraseBack | Container/Sequence/deque.hpp:1227-1231 | the back branch removes exactly the element at idx and returns start + idx |
| Deque.Deque.ShiftFront | Container/Sequence/deque.hpp:1225-1226 | copy_backward(start, pos, next) and then pop_front leave every element but the one at idx, in order |
| Deque.Deque.DropFront | Container/Sequence/deque.hpp:1226 | once the front part has moved up one place, pop_front leaves every element but the one at idx |
| Deque.Deque.ShiftBack | Container/Sequence/deque.hpp:1228-1229 | copy(next, finish, pos) and then pop_back leave every element but the one at idx, and start stays put |
| Deque.Deque.DropBack | Container/Sequence/deque.hpp:1229 | once the back part has moved down one place, pop_back leaves every element but the one at idx |
| Deque.Deque.Erase | Container/Sequence/deque.hpp:1218-1232 | erase(pos) removes exactly the element at pos and returns an iterator at the same index |
| Hashtable.PrimesAscending | Container/Associative/hashtable.hpp:132-141 | the 28 listed bucket counts rise strictly from 53 to 4294967291 |
| Hashtable.NextSizeLeast | Container/Associative/hashtable.hpp:143-149 | next_size(n) is the smallest listed prime not below n whenever one exists |
| Hashtable.NextSizeRange | Container/Associative/hashtable.hpp:143-149 | next_size(n) always lies in [53, 4294967291], and is the last prime for n past it |
| Hashtable.NextPrime | Container/Associative/hashtable.hpp:143-149 | __next_prime's lower_bound lookup returns exactly next_size(n) |
| Hashtable.LowerIsFirst | Container/Associative/hashtable.hpp:145-148 | the lower_bound position, or the last entry when it is end, is where a linear scan for the first prime not below n stops |
| Hashtable.ChainsLength | Container/Associative/hashtable.hpp:295-302 | the elements visited over buckets [0, n) number the sum of the bucket chain lengths |
| Hashtable.FlatAround | Container/Associative/hashtable.hpp:57-66 | the iteration order is the buckets before b, then bucket b's chain, then the buckets after it |
| Hashtable.Select | Container/Associative/hashtable.hpp:402-412 | picking elements by key yields at most as many elements as there were |
| Hashtable.SelectSplit | Container/Associative/hashtable.hpp:586-614 | the elements with key k and those without together are a permutation of the whole sequence |
| Hashtable.FirstKey | Container/Associative/hashtable.hpp:384-392 | the first index holding key k, or the length when none does |
| Hashtable.FirstKeyIs | Container/Associative/hashtable.hpp:384-392 | any index whose element has key k with no earlier one having it is FirstKey |
| Hashtable.FirstKeyAbsent | Container/Associative/hashtable.hpp:384-392 | the search runs off the end if and only if no element has key k |
| Hashtable.AbsentValues | Container/Associative/hashtable.hpp:683-715 | whether a key is present depends only on the multiset of elements, not on their placement |
| Hashtable.PlacedSplice | Container/Associative/hashtable.hpp:479-516 | linking elements of key hashing to bucket b into b's chain keeps every element in the bucket hash(key) % n names |
| Hashtable.ChainsAvoid | Container/Associative/hashtable.hpp:365-371 | in a placed table no bucket other than hash(k) % n holds key k |
| Hashtable.FindSpot | Container/Associative/hashtable.hpp:384-392 | the first match in k's bucket chain is the first element of key k in the whole iteration order |
| Hashtable.CountSpot | Container/Associative/hashtable.hpp:402-412 | the elements of key k in the whole table are exactly those of key k in its bucket |
| Hashtable.KeptPlaced | Container/Associative/hashtable.hpp:586-614 | dropping key k's elements from its bucket keeps every remaining element placed |
| Hashtable.EraseInChain | Container/Associative/hashtable.hpp:586-614 | erase(k)'s walk over a chain leaves the elements without key k, in order, and counts those removed |
| Hashtable.PlacedEmpty | Container/Associative/hashtable.hpp:224-229 | a table of empty buckets is placed and holds no element |
| Hashtable.Emptied | Container/Associative/hashtable.hpp:664-667 | the buckets [m, n) emptied and all others unchanged |
| Hashtable.EmptiedFlat | Container/Associative/hashtable.hpp:664-667 | emptying buckets [m, n) cuts exactly their run out of the iteration order |
| Hashtable.MoveHead | Container/Associative/hashtable.hpp:690-698 | moving the head node of an old bucket to the head of its new bucket keeps the combined multiset and keeps the new table placed |
| Hashtable.PopHead | Container/Associative/hashtable.hpp:690-698 | unlinking a bucket's head takes exactly that element out of the table's multiset |
| Hashtable.PushHead | Container/Associative/hashtable.hpp:690-698 | linking x at a bucket's head adds exactly x to the table's multiset |
| Hashtable.Hashtable.constructor | Container/Associative/hashtable.hpp:224-245 | a new table has next_size(n) buckets, all empty, and the given hash and key functions |
| Hashtable.Hashtable.BucketCount | Container/Associative/hashtable.hpp:290 | bucket_count() is the number of buckets, never zero |
| Hashtable.Hashtable.Size | Container/Associative/hashtable.hpp:302 | size() is the number of elements the iterator visits |
| Hashtable.Hashtable.Empty | Container/Associative/hashtable.hpp:304 | empty() holds exactly when iteration visits no element |
| Hashtable.Hashtable.BucketOf | Container/Associative/hashtable.hpp:365-371 | bkt_num_key(k) is hash(k) % bucket_count, a valid bucket index |
| Hashtable.Hashtable.Deref | Container/Associative/hashtable.hpp:54 | *it is the element at the iterator's place in iteration order |
| Hashtable.Hashtable.ElemsInBucket | Container/Associative/hashtable.hpp:295-300 | elems_in_bucket(b) is the length of bucket b's chain |
| Hashtable.Hashtable.Find | Container/Associative/hashtable.hpp:384-392 | find(k) designates the first element of key k in iteration order, or end() when there is none |
| Hashtable.Hashtable.Count | Container/Associative/hashtable.hpp:402-412 | count(k) is the number of elements of key k in the whole table |
| Hashtable.Hashtable.ScanBucket | Container/Associative/hashtable.hpp:386-389 | the bucket walk stops at the first node of key k, or at the chain's end |
| Hashtable.Hashtable.LinkAt | Container/Associative/hashtable.hpp:488-491 | linking a new node into a chain inserts obj at that place of iteration order and counts it |
| Hashtable.Hashtable.InsertUniqueNoresize | Container/Associative/hashtable.hpp:479-493 | inserts if and only if no element has obj's key; then obj heads its bucket; otherwise nothing changes and the iterator designates the existing element |
| Hashtable.Hashtable.InsertEqualNoresize | Container/Associative/hashtable.hpp:497-516 | obj goes right after the first element of equal key, or at its bucket's head when there is none; the multiset gains obj and the iterator designates it |
| Hashtable.Hashtable.Resize | Container/Associative/hashtable.hpp:683-715 | the elements are kept as a multiset and stay placed; the bucket count becomes next_size(hint) only when hint and next_size(hint) both exceed it, otherwise nothing changes |
| Hashtable.Hashtable.PosInRange | Container/Associative/hashtable.hpp:46-76 | every iterator lies within iteration order, and only end() at its end |
| Hashtable.Hashtable.InsertUnique | Container/Associative/hashtable.hpp:308-311 | obj is added if and only if its key was absent, after a resize for one more element |
| Hashtable.Hashtable.InsertEqual | Container/Associative/hashtable.hpp:313-316 | obj is always added, and the returned iterator designates it |
| Hashtable.Hashtable.InsertEqualRange | Container/Associative/hashtable.hpp:356-362 | inserting a range adds all of its values as a multiset and counts them |
| Hashtable.Hashtable.InsertEqualEach | Container/Associative/hashtable.hpp:360-361 | the insertion loop adds each value in turn without resizing |
| Hashtable.Hashtable.FindOrInsert | Container/Associative/hashtable.hpp:520-536 | returns the first element of obj's key, inserting obj exactly when that key was absent |
| Hashtable.Hashtable.SkipEmpty | Container/Associative/hashtable.hpp:61-64 | skipping empty buckets from bucket m reaches the place in iteration order after buckets [0, m) |
| Hashtable.Hashtable.Begin | Container/Associative/hashtable.hpp:267-275 | begin() is the first place in iteration order |
| Hashtable.Hashtable.Incr | Container/Associative/hashtable.hpp:57-66 | ++ moves to the next place in iteration order, across empty buckets |
| Hashtable.Hashtable.EqualRange | Container/Associative/hashtable.hpp:541-558 | equal_range(k) spans exactly the run of elements with key k, starting at its first one |
| Hashtable.Hashtable.EraseKey | Container/Associative/hashtable.hpp:586-614 | erase(k) leaves the elements without key k in order and returns how many had it |
| Hashtable.Hashtable.Unlink | Container/Associative/hashtable.hpp:597-600 | unlinking one node removes exactly that element from iteration order |
| Hashtable.Hashtable.EraseAt | Container/Associative/hashtable.hpp:617-642 | erase(it) removes exactly the designated element; erase(end()) changes nothing |
| Hashtable.Hashtable.EraseBucketTo | Container/Associative/hashtable.hpp:736-746 | erase_bucket(n, last) drops the leading nodes of bucket n up to last |
| Hashtable.Hashtable.EraseBucketRange | Container/Associative/hashtable.hpp:718-733 | erase_bucket(n, first, last) drops the nodes of bucket n from first up to last |
| Hashtable.Hashtable.BucketAt | Container/Associative/hashtable.hpp:654-657 | an iterator's bucket, the bucket count for end() |
| Hashtable.Hashtable.PosOrder | Container/Associative/hashtable.hpp:653-670 | an iterator earlier in iteration order is in an earlier bucket, or earlier in the same one |
| Hashtable.Hashtable.EraseBuckets | Container/Associative/hashtable.hpp:665-666 | the loop empties buckets [m, l) and cuts their run out of iteration order |
| Hashtable.Hashtable.EraseRange | Container/Associative/hashtable.hpp:653-670 | erase(first, last) removes exactly the elements from first up to last and counts them out |
| Hashtable.Hashtable.EraseAcross | Container/Associative/hashtable.hpp:663-668 | the case where last lies in a later bucket removes exactly [first, last) |
| Hashtable.Hashtable.EraseFrom | Container/Associative/hashtable.hpp:664-666 | erasing first's bucket from first and the buckets up to last's removes exactly that stretch |
| Hashtable.Hashtable.Clear | Container/Associative/hashtable.hpp:749-760 | clear() empties every bucket and keeps the bucket count |
| Hashtable.Hashtable.Copy | Container/Associative/hashtable.hpp:764-787 | copy_from(ht) makes the buckets, chains, size and functions those of ht |
| HashtableGroups.InsertGrouped | Container/Associative/hashtable.hpp:497-516 | inserting at a place that splits no run, and that touches x's run when its key is present, keeps equal keys contiguous |
| HashtableGroups.CutGrouped | Container/Associative/hashtable.hpp:586-670 | cutting any stretch out of the iteration order keeps equal keys contiguous, so every erase does |
| HashtableGroups.HeadSplitsNone | Container/Associative/hashtable.hpp:365-371 | the elements on either side of a bucket's head lie in different buckets and so have different keys |
| HashtableGroups.InsertEqualGrouped | Container/Associative/hashtable.hpp:497-516 | insert_equal_noresize keeps the elements of each key contiguous in iteration order |
| HashtableGroups.InsertAbsentGrouped | Container/Associative/hashtable.hpp:479-493 | a key not yet present, linked at its bucket's head, keeps the elements of each key contiguous |
| HashtableGroups.GroupedRun | Container/Associative/hashtable.hpp:541-558 | in a grouped table the run equal_range finds holds every element of key k and nothing else |
| HashtableGroups.RunHits | Container/Associative/hashtable.hpp:541-558 | when exactly the elements of s[f..l] have key k, they are all of key k's elements, in order |
| TreeShape.PlugOrder | Container/Associative/bs_tree.hpp:78-121 | the in-order sequence of a whole tree is what lies before a node's subtree, the subtree, and what lies after it |
| TreeShape.Locate | Container/Associative/bs_tree.hpp:36-39 | every node of the tree has a place in it, reached from the root by parent/child links |
| TreeShape.OrderEmpty | Container/Associative/bs_tree.hpp:232-236 | only the empty tree visits no node before end() |
| TreeShape.PosSame | Container/Associative/bs_tree.hpp:285-288 | distinct iterators, the header included, stand at distinct places of the iteration order |
| TreeShape.NextPos | Container/Associative/bs_tree.hpp:78-98 | two nodes side by side in order stand at neighbouring iterator positions |
| TreeShape.LastPos | Container/Associative/bs_tree.hpp:94-96 | the last node stands right before the header, end() |
| TreeShape.RightFirstPos | Container/Associative/bs_tree.hpp:79-83 | the minimum of a node's right subtree comes right after the node |
| TreeShape.LeftLastPos | Container/Associative/bs_tree.hpp:86-95 | the parent a climb reaches as a left child comes right after the last node of that child's subtree |
| TreeShape.LeftLastBefore | Container/Associative/bs_tree.hpp:105-107 | the maximum of a node's left subtree comes right before the node |
| TreeShape.RightFirstAfter | Container/Associative/bs_tree.hpp:108-118 | the parent a climb reaches as a right child comes right before the first node of that child's subtree |
| TreeShape.MinOf | Container/Associative/bs_tree.hpp:42-46 | the node reached by left links is a node of the tree and the first in order |
| TreeShape.RemoveMin | Container/Associative/bs_tree.hpp:322-366 | the tree without its first node, whose right subtree takes its place, has the order without that node |
| TreeShape.RemoveMinLinks | Container/Associative/bs_tree.hpp:322-366 | relinking the minimum's parent to the minimum's right child encodes the tree without the minimum |
| TreeShape.Graft | Container/Associative/bs_tree.hpp:249-264 | hanging tree g as the leftmost subtree of t gives the order of g followed by that of t |
| TreeShape.GraftMin | Container/Associative/bs_tree.hpp:249-264 | the first node of a graft is the first node of the grafted tree |
| TreeShape.DistinctNoDup | Container/Associative/bs_tree.hpp:36-39 | a tree in which no node number repeats visits each node once |
| TreeShape.HoleEnds | Container/Associative/bs_tree.hpp:217-218 | a new leaf at a place is first in order exactly when its parent is the leftmost node, and last exactly when it is the rightmost |
| TreeShape.LinkLeaf | Container/Associative/bs_tree.hpp:217-218 | linking a fresh leaf at an empty place keeps the header links sound and puts the leaf between the nodes before and after that place |
| TreeShape.LeafEncodes | Container/Associative/bs_tree.hpp:216 | after linking a leaf the header's parent is still the root, which is the leaf for an empty tree |
| TreeShape.SpliceOne | Container/Associative/bs_tree.hpp:322-366 | a node with at most one child, replaced by that child, leaves the order without the node and with no repeats |
| TreeShape.SpliceTwo | Container/Associative/bs_tree.hpp:322-366 | a node with two children, replaced by its successor, leaves a sound tree whose order lacks only the node |
| TreeShape.TwoEnds | Container/Associative/bs_tree.hpp:217-218 | a node with two children is neither first nor last, so leftmost and rightmost stay |
| TreeShape.HeaderEnds | Container/Associative/bs_tree.hpp:10-15 | setting the header's left and right links to the first and last nodes, or to the header when empty, completes a sound tree |
| TreeShape.Minimum | Container/Associative/bs_tree.hpp:42-46 | minimum(x) follows left links to the first node of x's subtree in order, which has no left child |
| TreeShape.Maximum | Container/Associative/bs_tree.hpp:48-52 | maximum(x) follows right links to the last node of x's subtree in order, which has no right child |
| TreeShape.Incre | Container/Associative/bs_tree.hpp:78-98 | ++ moves from any node to the next one in order, and from the last node to the header, end() |
| TreeShape.Decre | Container/Associative/bs_tree.hpp:100-121 | -- moves from end() to the last node and from any later node to the previous one in order, with the header recognised by identity |
| TreeShape.DecreNode | Container/Associative/bs_tree.hpp:105-119 | -- below a real node: the maximum of its left subtree, or the parent a climb reaches as a right child, which is its predecessor |
| TreeShape.HeaderTestAsWrittenAtRoot | Container/Associative/bs_tree.hpp:101 | the test node->parent->parent == node holds for the root as well as for the header |
| TreeShape.DecreAsWrittenAtRoot | Container/Associative/bs_tree.hpp:100-104 | in the tree of root 1 with left child 2, decre as written from the root lands on the null link where the predecessor is 2 |
| BsTree.Keys | Container/Associative/bs_tree.hpp:220-222 | the keys of the given nodes, in the given order |
| BsTree.BoundsCount | Container/Associative/bs_tree.hpp:435-438 | when every element between the lower and the upper bound equals k, their number is the multiplicity of k |
| BsTree.EraseRun | Container/Associative/bs_tree.hpp:377-382 | cutting the run of k out of the sorted keys removes every copy of k and keeps every other key's multiplicity |
| BsTree.InsertKeys | Container/Associative/bs_tree.hpp:713-735 | a new node whose key fits between the nodes before and after it keeps the keys sorted and inserts k at that place |
| BsTree.Hung | Container/Associative/bs_tree.hpp:713-735 | the new node stands at the place of the hole in order, and the keys are the old ones with k put there |
| BsTree.SplitKeys | Container/Associative/bs_tree.hpp:780-794 | at insert_unique's hole, k is already present if and only if the node right before the hole has key k |
| BsTree.HoleNeighbours | Container/Associative/bs_tree.hpp:780-787 | the hole's parent is the node right after the hole when the hole is a left child, and right before it otherwise; --i reaches the node before the hole |
| BsTree.RemoveKeys | Container/Associative/bs_tree.hpp:367-374 | removing one node from a sorted order keeps it sorted and removes exactly its key |
| BsTree.DescendLower | Container/Associative/bs_tree.hpp:440-455 | lower_bound's descent ends at the first element not less than k, or at end() |
| BsTree.DescendUpper | Container/Associative/bs_tree.hpp:473-488 | upper_bound's descent ends at the first element greater than k, or at end() |
| BsTree.LowerAt | Container/Associative/bs_tree.hpp:452-454 | when the descent runs out, the last node kept is the first element not less than k, or the header |
| BsTree.UpperAt | Container/Associative/bs_tree.hpp:485-487 | when the descent runs out, the last node kept is the first element greater than k, or the header |
| BsTree.DescendInsert | Container/Associative/bs_tree.hpp:891-904 | the insert descent ends at an empty place with every key before it not greater than k and every key after it greater |
| BsTree.HangLeaf | Container/Associative/bs_tree.hpp:713-735 | insert_aux links a fresh node at the hole as the left or right child of y, keeps the header's root, leftmost and rightmost right, and puts its key in order |
| BsTree.HoleSide | Container/Associative/bs_tree.hpp:718 | insert_aux's test picks the left link exactly when the hole is a left child (or the tree is empty) |
| BsTree.Unlink | Container/Associative/bs_tree.hpp:636-710 | erase_aux leaves a sound tree whose order is the old one without the erased node, with the erased node's own links untouched |
| BsTree.UnlinkAt | Container/Associative/bs_tree.hpp:644-708 | erase_aux at the located node keeps the links sound, changes no link of that node, and its order loses only that node |
| BsTree.UnlinkOne | Container/Associative/bs_tree.hpp:680-704 | a node with at most one child is replaced by that child, and leftmost and rightmost move to its neighbours when it was at an end |
| BsTree.UnlinkTwo | Container/Associative/bs_tree.hpp:644-679 | a node with two children is replaced by its successor, which is first unlinked from below; the order loses only the erased node |
| BsTree.TwoSwitch | Container/Associative/bs_tree.hpp:645-677 | the successor is the minimum of the right subtree, and it takes over the erased node's parent and both children; the erased node's own links stay as they were |
| BsTree.OneEnds | Container/Associative/bs_tree.hpp:698-709 | the new leftmost and rightmost after erasing a node with at most one child are the new first and last nodes, or the header |
| BsTree.EraseAt | Container/Associative/bs_tree.hpp:367-374 | erase(it) removes exactly that element, keeps the keys sorted, and returns the iterator at the same place, the old successor |
| BsTree.EraseFrom | Container/Associative/bs_tree.hpp:384-391 | erasing from first until last removes exactly the keys in [first, last) and counts them |
| BsTree.EraseStep | Container/Associative/bs_tree.hpp:388-390 | one turn of the loop erases the element at first and moves first to its successor |
| BsTree.CopiedKeys | Container/Associative/bs_tree.hpp:602-631 | a clone has the same number of nodes with the same keys in the same order |
| BsTree.CopiedGraft | Container/Associative/bs_tree.hpp:613-623 | hanging clones the same way as their originals gives a clone of the whole |
| BsTree.CopySubtree | Container/Associative/bs_tree.hpp:602-631 | copy(x, p) builds fresh nodes for x's subtree under p, a clone of it, and changes no existing node |
| BsTree.CopyStep | Container/Associative/bs_tree.hpp:613-623 | one turn of copy's left-spine loop clones a node and its right subtree under the previous clone |
| BsTree.CloneNode | Container/Associative/bs_tree.hpp:204-210 | clone_node makes a fresh node with the same key; with its right subtree copied it clones the original's right part |
| BsTree.CopyArena | Container/Associative/bs_tree.hpp:257-267 | copying a whole tree gives a sound tree with the same keys in the same order, with header links found again by minimum and maximum |
| BsTree.ClimbLinks | Container/Associative/bs_tree.hpp:86-91 | incre's climb on raw links ends at a node within the links |
| BsTree.EraseNextAsWritten | Container/Associative/bs_tree.hpp:367-374 | in the tree of root 1 with right child 2, erasing 2 as written returns the node 1 where end() is due |
| BsTree.StaleIncre | Container/Associative/bs_tree.hpp:367-374 | as written, ++ from the unlinked node 2, whose stale parent link names 1, reaches the node 1 |
| BsTree.EraseAtLast | Container/Associative/bs_tree.hpp:367-374 | taking the successor before unlinking, erasing the last node 2 returns end(), the header |
| BsTree.EraseKeyAsWrittenDiverges | Container/Associative/bs_tree.hpp:377-391 | when some but not all elements equal k, erase(k) as written calls itself on the unchanged tree without end |
| BsTree.EraseKeyAsWrittenOnFiveSix | Container/Associative/bs_tree.hpp:377-391 | erasing 5 from the keys 5, 6 as written never returns |
| BsTree.BsTree.ElementsSorted | Container/Associative/bs_tree.hpp:396-415 | the tree's keys ascend in iterator order |
| BsTree.BsTree.constructor | Container/Associative/bs_tree.hpp:232-237 | a new tree is empty, with no root and the header as its leftmost and rightmost node |
| BsTree.BsTree.Copy | Container/Associative/bs_tree.hpp:257-267 | the copy holds x's elements in x's order and x's node count |
| BsTree.BsTree.Begin | Container/Associative/bs_tree.hpp:285 | begin() is the first place in order, end() for an empty tree |
| BsTree.BsTree.LeftmostAt | Container/Associative/bs_tree.hpp:217 | the header's left link is the first node in order, or the header itself |
| BsTree.BsTree.Size | Container/Associative/bs_tree.hpp:308 | size() is the number of elements |
| BsTree.BsTree.Empty | Container/Associative/bs_tree.hpp:311 | empty() holds exactly when there is no element |
| BsTree.BsTree.Clear | Container/Associative/bs_tree.hpp:239-247 | clear() leaves no element, no root and the header as leftmost and rightmost |
| BsTree.BsTree.LowerBound | Container/Associative/bs_tree.hpp:440-455 | lower_bound(k) is the first element not less than k, or end() |
| BsTree.BsTree.UpperBound | Container/Associative/bs_tree.hpp:473-488 | upper_bound(k) is the first element greater than k, or end() |
| BsTree.BsTree.Find | Container/Associative/bs_tree.hpp:396-415 | find(k) is end() exactly when k is absent, and otherwise the first element equal to k |
| BsTree.BsTree.EqualRange | Container/Associative/bs_tree.hpp:508-510 | equal_range(k) is (lower_bound(k), upper_bound(k)) and spans only elements equal to k |
| BsTree.BsTree.Count | Container/Associative/bs_tree.hpp:435-438 | count(k) is the number of elements equal to k |
| BsTree.BsTree.Distance | Container/Associative/bs_tree.hpp:437 | distance(first, last) is the number of places between the two iterators |
| BsTree.BsTree.InsertPos | Container/Associative/bs_tree.hpp:891-904 | the descent finds the empty place after every key not greater than k and before every greater one |
| BsTree.BsTree.InsertAux | Container/Associative/bs_tree.hpp:713-735 | insert_aux hangs a new node with key k at the hole, counts it, and inserts k at the hole's place in order |
| BsTree.LinkNode | Container/Associative/bs_tree.hpp:718-733 | the new node becomes y's left or right child, and the header's root, leftmost or rightmost where it takes that place; the links stay sound and the node sits at the hole's place in order |
| BsTree.BsTree.InsertEqual | Container/Associative/bs_tree.hpp:891-904 | insert_equal(k) always inserts k, after every element not greater than it |
| BsTree.BsTree.HoleUpper | Container/Associative/bs_tree.hpp:891-904 | the hole's place is the upper bound of k |
| BsTree.BsTree.HoleBefore | Container/Associative/bs_tree.hpp:780-787 | begin() test and --i: the hole is first exactly when nothing comes before it, and otherwise --i reaches the node before it |
| BsTree.BsTree.InsertUnique | Container/Associative/bs_tree.hpp:767-795 | insert_unique(k) inserts if and only if k is absent, at its upper bound; otherwise nothing changes and the iterator designates an equal element |
| BsTree.BsTree.Erase | Container/Associative/bs_tree.hpp:367-374 | erase(it) removes exactly the designated element and returns its successor's place, one fewer node |
| BsTree.BsTree.EraseRange | Container/Associative/bs_tree.hpp:384-391 | erase(first, last) removes exactly the elements from first up to last, clearing when that is everything |
| BsTree.BsTree.EraseSpan | Container/Associative/bs_tree.hpp:388-390 | the loop erase(first++) until last removes exactly [first, last) |
| BsTree.BsTree.EraseKey | Container/Associative/bs_tree.hpp:377-382 | erase(k) removes every copy of k, keeps every other key, and returns how many it removed |
| RbTree.GrandparentTest | Container/Associative/rb_tree.hpp:84-85 | a node's parent's parent is the node itself exactly at the header and at the root |
| RbTree.Root | Container/Associative/rb_tree.hpp:173 | root() is the header's parent link: the tree's root, a black node, or null for an empty tree |
| RbTree.Leftmost | Container/Associative/rb_tree.hpp:174 | leftmost() is the first place in order, and the header exactly when the tree is empty |
| RbTree.Rightmost | Container/Associative/rb_tree.hpp:175 | rightmost() is the last node in order, and the header exactly when the tree is empty |
| RbTree.EndLinks | Container/Associative/rb_tree.hpp:173-175 | the header's left and right links are the first and the last positions of the order |
| RbTree.Decre | Container/Associative/rb_tree.hpp:83-104 | -- with the intended colour test moves from end() to the last node and from any later node to its predecessor, colours unchanged |
| RbTree.RotateLeft | Container/Associative/rb_tree.hpp:239 | rotating left at x lifts x's right child into x's place, updates the root when x was the root, and keeps the order of the nodes |
| RbTree.RotateRight | Container/Associative/rb_tree.hpp:240 | rotating right at x lifts x's left child into x's place, updates the root when x was the root, and keeps the order of the nodes |
| RbTree.LeftOrder | Container/Associative/rb_tree.hpp:239 | a left rotation anywhere in the tree keeps the order of the whole tree |
| RbTree.RightOrder | Container/Associative/rb_tree.hpp:240 | a right rotation anywhere in the tree keeps the order of the whole tree |
| RbTree.DecreTestAsWrittenNeverHolds | Container/Associative/rb_tree.hpp:84-85 | the test as written is an assignment whose value is red, false: it never holds and paints the node red |
| RbTree.DecreAsWrittenAtEnd | Container/Associative/rb_tree.hpp:83-104 | in the tree of root 1 with left child 2, decre from end() as written reaches 2 where the last node 1 is due |

## Left out

- Type traits and iterator tags. They are compile-time dispatch only; each algorithm is modelled once for the category it needs.
- `vector`, `heap`, `priority_queue`, `queue`, `stack`, `map`, `multimap`, `multiset`, `hash_multimap` and `hash_multiset`. These are stubs, declarations or forwarding wrappers over the modelled engines.
- `allocator.hpp` and `construct.hpp`. Node creation is a fresh arena slot and never fails; destruction and slot reuse are not modelled.
- `malloc_alloc`, its out-of-memory loop, and the malloc branch of `chunk_alloc` (Allocator/alloc.hpp:180-216). These are foreign calls. Requests above 128 bytes become a result tag.
- `reallocate` between different size classes (its `memcpy`). Only the same-class case is modelled.
- `tempbuf`, `little_allocator` and `smart_pointer`. Without `tempbuf`, `__stable_partition_aux`, `__inplace_stable_partition` and the split-and-rotate branch of `__stable_partition_adaptive` are left out; `rotate` is not defined anywhere.
- `algo_random.hpp`, which needs `rand()`.
- The stream iterators, `test_iterator.cpp` and `function_adaptor.hpp`: I/O, and code that does not compile.
- Exception rollback. The try/catch blocks of the trees, the hash table, the deque and the list never run, because nothing throws in the model. The deque's `at` returns `None` where the source throws `out_of_range`.
- Custom comparators. Ordered code uses `<` on `int`. So `set_difference`'s use of `<` instead of comp at Algorithms/algo_set.hpp:93, and list `merge(x, comp)` with its `last2` slips at Container/Sequence/list.hpp:762 and 786, make no difference here.
- The rvalue `merge(list&& x)` (Container/Sequence/list.hpp:733-754) is not modelled on its own: it repeats `merge(list& x)`, which `List.Merge` models, except that line 738 sets `last2` to this list's `end()` instead of `x.end()`.
- Lines that do not compile as written, which the model reads with their evident meaning:
  - Algorithms/algobase.hpp:124: `copy_backward` names `value_type<InputIt>`, where its iterator type is `BiIt1`.
  - Algorithms/algobase.hpp:131, 137 and 143: the `__copy_backward_aux` overloads pass `second` where `last` is meant.
  - Algorithms/sort.hpp:143 and 164: the default comparator argument is spelled `Comapre()`.
  - Algorithms/sort.hpp:180: `__linear_insert` takes `value_type_t<ForwardIt>`, where its iterator type is `RandomIt`.
  - Iterator/iterator_adaptor.hpp:22, 58 and 95-96: a `Container*` member is initialised from a `Container&`. The model's inserters hold a reference to the container.
  - Iterator/iterator_adaptor.hpp:84: `Container::iteartor` is meant to be `Container::iterator`.
  - Algorithms/numeric.hpp:86: `iota` writes through `*fisrt++`, meaning `*first++`.
- The inclusion test at Algorithms/algo_set.hpp:24 compares with the iterator `first2`. The model compares with `*first2`, and the comment at lines 14-15 names the roles the other way round.
- `__introsort_loop` and `sort`, `partial_sum`, `set_cartesian_product`, the `find_end` dispatcher and the bidirectional `__find_end`. Their bodies are broken or call undefined functions.
- bs_tree:
  - The hinted inserts (Container/Associative/bs_tree.hpp:825-983) are left out because of their missing returns.
  - `swap`, the move constructor and the move assignment only exchange or steal the header.
  - The copy assignment, spelled `operator==` at lines 557-575, is `Clear` followed by the copy constructor's work, and is not a separate member.
- bs_tree `erase_aux` line 664, `x->parent->left = x`, dereferences a possibly null `x`. The model does the intended `y->parent->left = x`. It also drops line 678, which swaps a `color` field that `bs_tree_node` does not have.
- rb_tree's rotations, `rb_tree_rebalance` and `rb_tree_rebalance_for_erase` are only declared.
  - `RbTree.RotateLeft` and `RbTree.RotateRight` are written for the declared signatures, and go beyond the source.
  - No balancing is modelled.
  - `rebalance_for_erase`'s declared contract is that of `erase_aux`, which `BsTree.Unlink` proves.
- The inserts of rb_tree, and everything else it only declares.
- Deque:
  - `reallocate_map`, `insert_aux`, `erase(first, last)` and `clear` are left out: their bodies are broken (Container/Sequence/deque.hpp:655, 970, 1238, 1278-1279).
  - `push_back_aux` writes `finish.set_node(finish + 1)` at line 887, and `pop_back` tests `finish.start` at line 485. The model uses `finish.node + 1` and `finish.first`.
- List:
  - `clear` frees the wrong node (Container/Sequence/list.hpp:576).
  - `operator=` (line 494) and the postfix `--` (lines 60-64) do not compile.
  - None of the three is modelled.
- `hashtable`: `insert_unique(f, l)`, `swap`, `operator==` and the `const_iterator` overloads are left out; they repeat the modelled operations.
- Deque.Deque.PushBack: needs a spare map slot after `finish.node` when the last buffer is full, because `reallocate_map` is left out.
- Deque.Deque.PushFront: needs a spare map slot before `start.node` when the first buffer is full, for the same reason.
- Deque.Deque.constructor: models only `initialize_map`'s layout. The `n` elements of `fill_initialize` are not constructed, so the deque is `Valid` only for `n == 0`.
- IteratorAdaptor.InsertIterator.Assign: the container's positions are indices, as in a vector-like container, so after the insert `iter + 1` is the place just past v. The source discards `insert`'s result and applies `++iter` to the old iterator (Iterator/iterator_adaptor.hpp:102-103). On a node container such as `list` that iterator still names the old element, so [a, b] with the inserter at begin() and x, y assigned gives [x, a, y, b], where the model gives [x, y, a, b]. That node-container order is not modelled, and the same holds for `IteratorAdaptor.InsertIterator.AssignAll`.
- IteratorBase.InputAdvance: requires `n >= 0`, as the input-iterator `advance` does. A negative `n` never terminates in the source.
- AlgoBase.Copy: excludes a destination that starts inside the source range after `first`. That case is defined for the `memmove` branch only.
- Uninitialized.UninitializedFillN: the POD branch at Allocator/uninitialized.hpp:103-106 has no `return`. The model returns `first + n` on both branches.
- Pair.MakePair: the two-argument constructor at Util/pair.hpp:15 initialises `first` twice and never `second`. The model builds the evident pair.
- HashtableGroups: preservation of `Grouped` is proved for the inserts and for any cut of the iteration order. That `resize` keeps equal keys together, as the head-first re-linking does, is not proved.
- ListSort.Sort: requires fewer than 2^64 elements, which is what the 64 counters can hold.

## Findings

| source | as written | input that shows it | evidently intended | confidence | as-written member | corrected member |
|---|---|---|---|---|---|---|
| Function/function_base.hpp:129-134 | `less_equal` returns `x == y` | x = 1, y = 2: 1 <= 2 is false | `x <= y` | high, not executed | FunctionBase.LessEqualAsWrittenRejectsLess | FunctionBase.RelationalConsistent |
| Container/Sequence/deque.hpp:397-412 | `range_check` throws only when `n > size()` | `at(size())` reads the slot at `finish` | throw when `n >= size()` | high, not executed | Deque.Deque.RangeCheckAdmitsSize | Deque.Deque.At |
| Algorithms/numeric.hpp:77 | `n >> 1;` discards the shifted value | `power(x, 3)`: line 72 brings n to 1 and the discarded shift keeps it at 1, so the loop never ends | `n >>= 1` | high, not executed | Numeric.PowerStepAsWrittenKeepsN | Numeric.Power |
| Algorithms/numeric.hpp:21 | `op1(init, op1(a, b))`: op2 is never used | [1] and [2] with plus and multiplies give 3 | `op1(init, op2(a, b))`, giving 2 | high, not executed | Numeric.InnerProductAsWrittenExample | Numeric.InnerProductDefaultIsDot |
| Iterator/iterator_adaptor.hpp:191-194 | reverse iterator `-=` does `cur -= n`, the same as `+=` | `it += 1; it -= 1` moves the base two places | `cur += n` | high, not executed | IteratorAdaptor.SubAssignAsWrittenDoesNotUndo | IteratorAdaptor.SubAssignUndoesAddAssign |
| Iterator/iterator_adaptor.hpp:207-211 | reverse iterator `<` is `x.base() < y.base()` | y = x + 1 has x - y == -1, yet x < y is false | `y.base() < x.base()` | high, not executed | IteratorAdaptor.LessAsWrittenDisagrees | IteratorAdaptor.LessMatchesDifference |
| Allocator/alloc.hpp:252 | `allocate(sz)` calls `refill(sz)` with the unrounded size | sz = 5: blocks 5 bytes apart on the 8-byte list overlap | `refill(roundUp(sz))` | high, not executed | Alloc.RefillChainAsWrittenOverlaps | Alloc.RefillChainApart |
| Allocator/alloc.hpp:174-176 | case 2 tests `total_bytes >= sz` | a pool of 4 bytes asked for 8-byte objects hands out a block anyway | `bytes_left >= sz` | high, not executed | Alloc.ChunkPlanAsWrittenOverruns | Alloc.ChunkPlan |
| Container/Associative/bs_tree.hpp:100-104 | `decre` takes any node whose parent's parent is itself for the header | root 1 with left child 2: decre from 1 goes to the null link, not to 2 | recognise the header by identity | high, not executed | TreeShape.DecreAsWrittenAtRoot | TreeShape.Decre |
| Container/Associative/bs_tree.hpp:367-374 | `erase(pos)` steps `++` from the node `erase_aux` has already unlinked | root 1 with right child 2: erasing 2 returns 1, not end() | take the successor before unlinking | medium, not executed | BsTree.EraseNextAsWritten | BsTree.BsTree.Erase |
| Container/Associative/bs_tree.hpp:377-391 | `erase(first, last)` calls `erase(*first++)`, which is `erase(key)` again on the unchanged tree | keys 5, 6 and erase(5): the recursion never returns | `erase(first++)`, erasing by iterator | high, not executed | BsTree.EraseKeyAsWrittenOnFiveSix | BsTree.BsTree.EraseKey |
| Container/Associative/rb_tree.hpp:84 | `node->color = rb_tree_red && ...` assigns instead of comparing | root 1 with left child 2: decre from end() reaches 2, not 1 | `node->color == rb_tree_red && node->parent->parent == node` | high, not executed | RbTree.DecreAsWrittenAtEnd | RbTree.Decre |
