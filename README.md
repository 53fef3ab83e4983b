# Circus core in Dafny

This project models the sequential core of the Circus libraries and proves
properties of that model. It covers the native C++ library `Circus.Core`, the
managed collections in `Circus/Collections`, and two small pieces of
`Circus.Wpf` state.

- **FarmHash** (`farmhash.dfy`). This is the 64-bit port of Google's FarmHash:
  the farmn, farmu and farmx `Hash64` variants, their seeded forms and the
  tier functions. Bytes are `seq<bv8>` and words are `bv64`, so every multiply,
  add and shift wraps as it does on `uint64_t`. Fetches are little-endian.
  Each block loop is a method proved equal to a recursive function over the
  64-byte blocks.
- **Byte strings** (`text.dfy`, `numerics.dfy`, `api.dfy`).
  - `circus::text::basic_string` is a class: a size, plus a byte array with a
    NUL at index `size`.
  - Its character-class searches `first`, `first_not_of`, `last` and
    `last_not_of`, and the Boyer–Moore-style `find` with its lazily computed
    skip, are loops. Each is proved against a reference function.
  - `numerics::is` is the numeral validator.
  - `api.dfy` holds the exported C entry points, with their -1 and zero-length
    conventions.
- **Prime oracle** (`prime_detail.dfy`, `prime.dfy`).
  - The process-wide cache is a class with a one-way transition from empty to
    filled.
  - The sieve, the binary search over the cache, the 6k ± 1 trial division
    and the odd-candidate search are loops, proved against `IsPrime`.
- **Containers**.
  - `Vector`, `Stack` and `Pail` (`vector.dfy`, `stack.dfy`, `pail.dfy`) are
    classes over an `array<T>` that grows by `Offset`.
  - `Set` and `Map` (`set.dfy`, `map.dfy`, with the chain lemmas in
    `chains.dfy`) are separate-chaining hash tables. Each table is an
    `array<seq<Node>>`, where the chain at index `b` holds the nodes of bucket
    `b` in list order. The bucket counts come from the prime oracle.
  - `BitSet` (`bitset.dfy`) packs bits into `bv32` words.
- **State machines and orderings**.
  - `DocumentTrayStackInfo` (`tray.dfy`) is a counter of pinned documents.
  - `HierarchicalCollectionCache` (`hierarchy.dfy`) flattens a forest into
    nodes with parent keys, filters them and accepts the ancestors of every
    match.
  - `Duple` (`duple.dfy`) is a pair with lexicographic order, equality and a
    hash combine.

Where the code does something its documentation or evident intent does not,
the model keeps the code's behaviour. A corrected member stands beside it, and
the section Findings lists both.

## Model

| member | source | states |
|---|---|---|
| FarmhashDetail.RotateIsRightRotation | Circus.Core/hash/detail/farmhash-detail.h:81-83 | BasicRotate64(v, s) is the right rotation by s for s = 0 and for every shift the hash functions use |
| FarmhashDetail.Fetch64Local | Circus.Core/hash/detail/farmhash-detail.h:95-99 | Fetch64 reads only the eight bytes at i: two buffers that agree there give the same word |
| FarmhashDetail.Fetch32Local | Circus.Core/hash/detail/farmhash-detail.h:89-93 | Fetch32 reads only the four bytes at i: two buffers that agree there give the same word |
| FarmhashDetail.Fetch64LowIsFetch32 | Circus.Core/hash/detail/farmhash-detail.h:89-99 | the low 32 bits of the little-endian Fetch64 at i are the Fetch32 at i |
| Farmn.HashLen0to16Empty | Circus.Core/hash/detail/farmhash-detail.h:156 | the empty string hashes to the constant k2 |
| Farmn.HashLen0to16Samples | Circus.Core/hash/detail/farmhash-detail.h:148-155 | for 1 to 3 bytes the hash depends only on the first, middle and last byte and the length |
| Farmn.Times8 | Circus.Core/hash/detail/farmhash-detail.h:144-146 | the 32-bit fetch is shifted left by 3 as a `uint64_t`: shifting back gives the fetch, so none of its top bits are lost |
| Farmn.Times8Carries | Circus.Core/hash/detail/farmhash-detail.h:144-146 | the fetch 0x20000000 of the bytes 00 00 00 20 shifts to 2^32, a bit a 32-bit shift would drop |
| Farmn.HashLen0to16Reads4 | Circus.Core/hash/detail/farmhash-detail.h:143-147 | for 4 to 7 bytes two strings that agree on their first and last four bytes hash alike |
| Farmn.HashLen0to16Reads8 | Circus.Core/hash/detail/farmhash-detail.h:135-142 | for 8 to 16 bytes two strings that agree on their first and last eight bytes hash alike |
| Farmn.Hash64Tiers | Circus.Core/hash/detail/farmhash-detail.h:197-210 | Hash64 dispatches on the length: at most 16, at most 32, at most 64 bytes, or the 64-byte block loop |
| Farmn.ComputeHash64 | Circus.Core/hash/detail/farmhash-detail.h:197-250 | the imperative hash (tiers, then a while loop over 64-byte blocks) equals the functional Hash64 |
| Farmn.ComputeHash64Long | Circus.Core/hash/detail/farmhash-detail.h:211-250 | the long-string path with its do-while block loop equals Hash64Long |
| Farmn.BlockLoop | Circus.Core/hash/detail/farmhash-detail.h:223-233 | running the loop n times gives the state after n blocks |
| Farmn.Step | Circus.Core/hash/detail/farmhash-detail.h:223-233 | one loop iteration turns the state after k blocks into the state after k + 1 |
| Farmn.BlocksStep | Circus.Core/hash/detail/farmhash-detail.h:223-233 | the state after k + 1 blocks is one round on the state after k, reading the block at 64 * k |
| Farmn.BlockCountBounds | Circus.Core/hash/detail/farmhash-detail.h:219-222 | a string over 64 bytes has at least one full block and the blocks end before the string does |
| Farmn.BlockAccounting | Circus.Core/hash/detail/farmhash-detail.h:219-222 | the final 64-byte window starts at len - 64 and overlaps the last block, so every fetch stays inside the string |
| Farmn.SeedsRehashDigest | Circus.Core/hash/detail/farmhash-detail.h:254-260 | the seeded variants rehash the unseeded digest with HashLen16 |
| Farmu.Hash64WithSeedsTiers | Circus.Core/hash/detail/farmhash-detail.h:278-281 | strings of at most 64 bytes go to the farmn seeded hash; longer ones to the farmu block loop |
| Farmu.ComputeHash64WithSeeds | Circus.Core/hash/detail/farmhash-detail.h:278-363 | the imperative seeded hash equals the functional Hash64WithSeeds |
| Farmu.BlockLoop | Circus.Core/hash/detail/farmhash-detail.h:297-345 | running the loop n times gives the state after n blocks |
| Farmu.Step | Circus.Core/hash/detail/farmhash-detail.h:297-345 | one loop iteration turns the state after k blocks into the state after k + 1 |
| Farmu.BlocksStep | Circus.Core/hash/detail/farmhash-detail.h:297-345 | the state after k + 1 blocks is one round on the state after k |
| Farmu.Hash64Delegates | Circus.Core/hash/detail/farmhash-detail.h:365-371 | unseeded farmu uses farmn up to 64 bytes and seeds 81 and 0 above it |
| Farmx.Hash64Dispatch | Circus.Core/hash/detail/farmhash-detail.h:411-432 | the top-level hash picks farmn below 17, 33 and 65 bytes, its own 65-to-96 path, farmn up to 256 bytes and farmu beyond |
| Farmhash.Hash64 | Circus.Core/hash/farmhash.h:65-67 | hash64(str, size) is the farmx hash of the first size bytes; size 0 gives k2 |
| Farmhash.Hash64ReadsOnlyPrefix | Circus.Core/hash/farmhash.h:65-67 | two buffers that agree on their first size bytes hash alike |
| Text.Narrow | Circus.Core/text/basic_string.h:270-283 | narrowing n wide characters keeps exactly n bytes |
| Text.NarrowWiden | Circus.Core/text/basic_string.h:270-283 | narrowing a widened byte string gives it back |
| Text.FirstFromIsLeast | Circus.Core/text/basic_string.h:237-268 | the forward class scan answers npos exactly when no byte from the start position is in (or out of) the class, and otherwise the least such index |
| Text.LastFromIsGreatest | Circus.Core/text/basic_string.h:285-321 | the backward class scan answers npos exactly when no byte at or before the position qualifies, and otherwise the greatest such index |
| Text.SkipFromIsLeast | Circus.Core/text/basic_string.h:219-224 | the skip scan stops at the nearest earlier copy of the pattern's last byte, or runs to the length |
| Text.SkipIsLeast | Circus.Core/text/basic_string.h:219-224 | the skip is between 1 and the pattern length, and no byte between the last byte and its nearest earlier copy equals it |
| Text.SkipNeverPassesMatch | Circus.Core/text/basic_string.h:199-201 | advancing the window by the skip never jumps over an occurrence |
| Text.TraitsCompare | Circus.Core/text/basic_string.h:89-93 | the character comparison answers -1, 0 or 1 |
| Text.TraitsCompareZero | Circus.Core/text/basic_string.h:89-93 | the comparison of n characters is 0 exactly when the prefixes are equal, and swapping arguments negates it |
| Text.TraitsCompareAt | Circus.Core/text/basic_string.h:89-93 | at the first differing character the comparison is the sign of that difference |
| Text.Compare | Circus.Core/text/basic_string.h:89-93 | the comparison of two strings answers -1, 0 or 1 |
| Text.CompareZeroIffEqual | Circus.Core/text/basic_string.h:89-93 | two strings compare equal exactly when they are equal, and the order is antisymmetric |
| Text.CompareAtFirstDifference | Circus.Core/text/basic_string.h:89-93 | the result is decided by the first differing byte |
| Text.CLength | Circus.Core/text/basic_string.h:323-326 | the C length is the index of the first NUL at or after the start |
| Text.TraitsLength | Circus.Core/text/basic_string.h:323-326 | a null pointer has length 0; otherwise the length is the first NUL and no earlier byte is NUL |
| Text.BasicString.constructor | Circus.Core/text/basic_string.h:71-73 | the string holds the n bytes narrowed from the wide input |
| Text.BasicString.Hash | Circus.Core/text/basic_string.h:127-129 | hash() is the farmx hash of the contents |
| Text.BasicString.First | Circus.Core/text/basic_string.h:237-252 | first(s, pos) is the least index from pos whose byte is in s, or npos |
| Text.BasicString.FirstNotOf | Circus.Core/text/basic_string.h:254-268 | first_not_of(s, pos) is the least index from pos whose byte is not in s, or npos |
| Text.BasicString.Last | Circus.Core/text/basic_string.h:285-303 | last(s, pos) is the greatest index at or before pos whose byte is in s, or npos |
| Text.BasicString.LastNotOf | Circus.Core/text/basic_string.h:305-321 | last_not_of(s, pos) is the greatest index at or before pos whose byte is not in s, or npos |
| Text.BasicString.Find | Circus.Core/text/basic_string.h:178-235 | find(s, pos) returns the least index from pos where s occurs, or npos when none does |
| Text.ComputeSkip | Circus.Core/text/basic_string.h:219-224 | the skip loop computes Skip(s) |
| Numerics.Digits | Circus.Core/text/numerics.h:44 | the class searched for is the eleven characters before the literal's NUL |
| Numerics.FirstDotIsLastDot | Circus.Core/text/numerics.h:48-58 | the last '.' is the first '.' exactly when there is at most one |
| Numerics.AllDigitsIffNotFound | Circus.Core/text/numerics.h:44 | first_not_of finds nothing exactly when every byte from the start is a digit or '.' |
| Numerics.IsAcceptsNumerals | Circus.Core/text/numerics.h:32-66 | is() returns true exactly for an optional '-', then digits and at most one '.', not starting with '.' after the sign |
| Numerics.IsFlags | Circus.Core/text/numerics.h:47-65 | on success the signed flag is set by a leading '-' and the decimal flag by a '.'; on failure both flags are left alone |
| Numerics.RejectsBareSignAndLeadingDot | Circus.Core/text/numerics.h:38-41 | "-", "-." followed by anything, and any string starting with '.' are rejected |
| Numerics.AcceptsEmpty | Circus.Core/text/numerics.h:36 | the empty string reads its NUL terminator and is accepted with both flags unchanged |
| Api.ToInt | Circus.Core/api.cpp:23 | npos becomes -1 and every other index is kept |
| Api.Contains | Circus.Core/api.cpp:22-24 | -1 exactly when no byte of str is in str1; otherwise the least index whose byte is |
| Api.Equals | Circus.Core/api.cpp:26-28 | true exactly when the two narrowed strings are equal |
| Api.FirstNotOf | Circus.Core/api.cpp:30-32 | -1 exactly when every byte of str is in str1; otherwise the least index whose byte is not |
| Api.Hash | Circus.Core/api.cpp:34-40 | an empty string fails and leaves hash unchanged; otherwise hash is the farmx hash of the string |
| Api.IsNumeric | Circus.Core/api.cpp:42-44 | true exactly for a non-empty numeral, with the flags set as is() sets them |
| Api.Last | Circus.Core/api.cpp:46-48 | -1 exactly when no byte of str is in str1; otherwise the greatest index whose byte is |
| Api.LastNotOf | Circus.Core/api.cpp:50-52 | -1 exactly when every byte of str is in str1; otherwise the greatest index whose byte is not |
| Api.IsPrime | Circus.Core/api.cpp:55-57 | on a filled cache, the answer is primality |
| Api.NextPrime | Circus.Core/api.cpp:59-61 | on a filled cache, the least prime at least i |
| Api.PreviousPrime | Circus.Core/api.cpp:63-65 | on a filled cache, the greatest prime at most i, or 2 below 2 |
| Prime.Is | Circus.Core/hash/prime.h:37-49 | false below 2 and for even numbers above 2; otherwise primality, except that the call that fills an empty cache answers false |
| Prime.IsCorrected | Circus.Core/hash/prime.h:38-49 | over the corrected lookup, the answer is primality on every call |
| Prime.FirstCallExample | Circus.Core/hash/prime.h:45 | on a fresh cache is(3) answers false, while the corrected lookup answers true |
| Prime.Next | Circus.Core/hash/prime.h:53-61 | 0 unless dir is 1 or -1; otherwise the least prime at least i (dir 1) or the greatest prime at most i (dir -1, 2 below 2), except 0 on the first call for an even i in (2, k0) |
| Prime.PrimeIsItsOwnNeighbour | Circus.Core/hash/prime.h:57-59 | a prime is both the least prime at least itself and the greatest prime at most itself |
| Prime.TwoIsNearest | Circus.Core/hash/detail/prime-detail.h:119-121 | 2 is the least prime at least any i <= 2 |
| Prime.LeastPrimeFromNext | Circus.Core/hash/prime.h:57-60 | searching from i + 1 for a non-prime i gives the least prime at least i |
| PrimeDetail.Cache.constructor | Circus.Core/hash/detail/prime-detail.h:35 | the cache starts empty |
| PrimeDetail.Cache.Init | Circus.Core/hash/detail/prime-detail.h:42-55 | init appends exactly the primes up to k0, in increasing order |
| PrimeDetail.Strike | Circus.Core/hash/detail/prime-detail.h:44-48 | after striking i, a[k] is set exactly for the numbers struck by some factor up to i |
| PrimeDetail.SieveClassifies | Circus.Core/hash/detail/prime-detail.h:44-48 | after all the strikes, a number in [2, k0] is struck exactly when it is composite |
| PrimeDetail.StruckBelowOnlyComposites | Circus.Core/hash/detail/prime-detail.h:44-48 | only composites are ever struck |
| PrimeDetail.PrimesUpToSpec | Circus.Core/hash/detail/prime-detail.h:49-54 | the collected numbers are exactly the primes up to n, strictly increasing |
| PrimeDetail.Table | Circus.Core/hash/detail/prime-detail.h:34-54 | the table starts at 2 and ends at k0 |
| PrimeDetail.TableMembers | Circus.Core/hash/detail/prime-detail.h:34-54 | the table holds exactly the primes in [2, k0] |
| PrimeDetail.TableSorted | Circus.Core/hash/detail/prime-detail.h:49-54 | the table is strictly increasing |
| PrimeDetail.PrimesUpToStartsAtTwo | Circus.Core/hash/detail/prime-detail.h:49-54 | the first prime collected is 2 |
| PrimeDetail.PrimeK0 | Circus.Core/hash/detail/prime-detail.h:34 | k0 = 541 is prime |
| PrimeDetail.Cache.BSearch | Circus.Core/hash/detail/prime-detail.h:67-86 | the call that fills an empty cache returns 0; on a filled cache an exact lookup returns i if it is a cached prime and 0 otherwise, and a nearest lookup returns the least prime at least i or the greatest prime at most i |
| PrimeDetail.Cache.BSearchCorrected | Circus.Core/hash/detail/prime-detail.h:67-86 | the same answers as a filled cache gives, on the first call as on every later one |
| PrimeDetail.ResultAt | Circus.Core/hash/detail/prime-detail.h:73-76 | whatever probe makes bsearch return, the value there is the promised answer |
| PrimeDetail.ProbeMiss | Circus.Core/hash/detail/prime-detail.h:77-83 | a probe that does not return moves the window towards the answer's index |
| PrimeDetail.TargetIndex | Circus.Core/hash/detail/prime-detail.h:73-83 | there is an index the search converges on, or none only when the answer is 0 |
| PrimeDetail.NearestUp | Circus.Core/hash/detail/prime-detail.h:58-59 | nearest(i, m, 1) holding makes table[m] the least prime at least i |
| PrimeDetail.NearestDown | Circus.Core/hash/detail/prime-detail.h:61 | nearest(i, m, -1) holding makes table[m] the greatest prime at most i |
| PrimeDetail.HitIsExact | Circus.Core/hash/detail/prime-detail.h:75 | a probe that hits i shows i is prime and its own neighbour in both directions |
| PrimeDetail.IsImpl | Circus.Core/hash/detail/prime-detail.h:89-103 | is_impl answers the trial division by 3 and by 6k +- 1 up to the root, which is primality for odd i >= 5 |
| PrimeDetail.TrialDivision | Circus.Core/hash/detail/prime-detail.h:94-101 | trial division by 3 and by 6k +- 1 up to the root decides primality for odd i >= 5 |
| PrimeDetail.Search | Circus.Core/hash/detail/prime-detail.h:109-116 | search(i, 1) is the least prime above i and search(i, -1) the greatest prime at most i |
| PrimeDetail.SearchUp | Circus.Core/hash/detail/prime-detail.h:111-115 | the upward loop over odd candidates returns the least prime above i |
| PrimeDetail.SearchDown | Circus.Core/hash/detail/prime-detail.h:111-115 | the downward loop over odd candidates returns the greatest prime at most i |
| PrimeDetail.SearchStart | Circus.Core/hash/detail/prime-detail.h:110 | the first candidate is odd and no prime is skipped before it |
| PrimeDetail.SearchStep | Circus.Core/hash/detail/prime-detail.h:111 | a failed candidate can be stepped over without skipping a prime |
| PrimeDetail.Cache.Find | Circus.Core/hash/detail/prime-detail.h:118-126 | 2 for i <= 2, the search above k0, and the cached neighbour in between (0 on the call that fills the cache) |
| Vector.Vector.constructor | Circus/Collections/Vector.cs:85-89 | an empty vector with an array of the given capacity |
| Vector.Vector.Fill | Circus/Collections/Vector.cs:94-98 | a vector of capacity copies of the fill value |
| Vector.Vector.FromEnumerable | Circus/Collections/Vector.cs:103-107 | a vector holding the elements in order, a collection source sizing the array exactly; it fails exactly for a non-collection source of more than 5 elements with offset <= 0, holding the first 5 when the Add throws |
| Vector.Vector.Copied | Circus/Collections/Vector.cs:207-211 | a collection source is copied into an array of exactly its size, with capacity 5 |
| Vector.Vector.CopyPrefix | Circus/Collections/Vector.cs:156-160 | a fresh array of the new size starting with the first n elements, the rest default |
| Vector.Vector.Add | Circus/Collections/Vector.cs:108-116 | appends the value and returns its index, a full array growing by offset; it fails, with the elements unchanged, exactly when the array is full and offset <= 0, where the source throws |
| Vector.Vector.At | Circus/Collections/Vector.cs:118-125 | succeeds exactly for an index in [0, Count) and then yields that element |
| Vector.Vector.Clear | Circus/Collections/Vector.cs:135-145 | empties the vector; trim brings the array back to the capacity |
| Vector.Vector.Contains | Circus/Collections/Vector.cs:146-155 | scans the whole array, so a default value is also found in the unused tail; the index is the first hit |
| Vector.Vector.Insert | Circus/Collections/Vector.cs:222-229 | inserts the value at index, growing a full array by one |
| Vector.Vector.Place | Circus/Collections/Vector.cs:224-228 | shifting right and writing inserts the value at index in place |
| Vector.Vector.InsertAt | Circus/Collections/Vector.cs:249-255 | succeeds exactly for an index in [0, Count] and then inserts there |
| Vector.Vector.InsertCollection | Circus/Collections/Vector.cs:231-239 | the collection insert as written, including the lost last element |
| Vector.Vector.InsertCollectionCorrected | Circus/Collections/Vector.cs:231-239 | inserts the whole collection at index, every element kept |
| Vector.Vector.PlaceRange | Circus/Collections/Vector.cs:234-238 | shifting then writing is a range insert; writing without the shift is the as-written result |
| Vector.Vector.ShiftRightBy | Circus/Collections/Vector.cs:225 | moves the elements from index right by c, leaving the rest |
| Vector.Vector.WriteAt | Circus/Collections/Vector.cs:237 | writes t at index, leaving the rest |
| Vector.Vector.Remove | Circus/Collections/Vector.cs:264-268 | removes the element at index, closing the gap |
| Vector.Vector.RemoveAt | Circus/Collections/Vector.cs:276-282 | succeeds exactly for an index in [0, Count) and then removes it |
| Vector.Vector.RemoveRange | Circus/Collections/Vector.cs:270-274 | removes the n elements from index, closing the gap |
| Vector.Vector.RemoveRangeAt | Circus/Collections/Vector.cs:284-290 | succeeds exactly when the guard as written accepts, and then removes the range |
| Vector.Vector.RemoveRangeAtCorrected | Circus/Collections/Vector.cs:284-290 | succeeds exactly for a range inside [0, Count) and then removes it |
| Vector.Vector.ShiftLeftBy | Circus/Collections/Vector.cs:266-273 | moves the elements after the gap left by c |
| Vector.Vector.ClearRange | Circus/Collections/Vector.cs:266-273 | writes the default over the vacated slots |
| Vector.Vector.Reserve | Circus/Collections/Vector.cs:291-296 | keeps the elements and leaves at least size free slots, reallocating only when needed |
| Vector.Vector.Resize | Circus/Collections/Vector.cs:297-306 | a fresh array of the size, with the elements cut to it |
| Vector.Vector.Trim | Circus/Collections/Vector.cs:336-340 | the array shrinks to Count with the elements kept |
| Vector.Vector.Reverse | Circus/Collections/Vector.cs:307-313 | the elements end up in reverse order |
| Vector.Vector.SwapAt | Circus/Collections/Vector.cs:311-313 | exchanges two array slots |
| Vector.Vector.Swap | Circus/Collections/Vector.cs:323-335 | the two vectors exchange their elements and array sizes |
| Vector.Vector.ToArray | Circus/Collections/Vector.cs:342-348 | a fresh array holding exactly the elements |
| Vector.RemoveUndoesInsert | Circus/Collections/Vector.cs:264-268 | removing at the index an insert used gives the original elements back |
| Vector.ReversedTwice | Circus/Collections/Vector.cs:307-313 | reversing twice is the identity |
| Vector.InsertedRangeSingleton | Circus/Collections/Vector.cs:222-239 | a one-element range insert is a single insert |
| Vector.InsertCollectionLosesLast | Circus/Collections/Vector.cs:234 | the as-written insert agrees with a range insert except at index Count - 1, where the last element becomes the default |
| Vector.InsertCollectionExample | Circus/Collections/Vector.cs:234 | inserting [3] at 1 into [1, 2] gives [1, 3, 0] instead of [1, 3, 2] |
| Vector.RangeGuardRejectsTail | Circus/Collections/Vector.cs:285 | the guard as written rejects a range that ends exactly at Count |
| Stack.Stack.constructor | Circus/Collections/Stack.cs:65-70 | an empty stack with an array of the given capacity |
| Stack.Stack.CopyPrefix | Circus/Collections/Stack.cs:107-111 | a fresh array of the new size starting with the first n elements, the rest default |
| Stack.Stack.Push | Circus/Collections/Stack.cs:177-185 | appends the value, a full array growing by offset, and answers true; it fails, with the elements unchanged, exactly when the array is full and offset <= 0, where the source throws |
| Stack.Stack.Reclaim | Circus/Collections/Stack.cs:186-189 | the shrink test answers true only for an empty stack, so Pop never shrinks |
| Stack.Stack.Reset | Circus/Collections/Stack.cs:209-214 | empties the stack, bringing an oversized array back to the capacity |
| Stack.Stack.Pop | Circus/Collections/Stack.cs:168-176 | fails on an empty stack; otherwise yields the top and removes it |
| Stack.Stack.Peek | Circus/Collections/Stack.cs:165-167 | yields the top element; on an empty stack the read at index -1 throws, reported as `ok` false |
| Stack.Stack.ShiftLeft | Circus/Collections/Stack.cs:192 | moves the elements after index left by one |
| Stack.Stack.Remove | Circus/Collections/Stack.cs:190-194 | removes the element at index |
| Stack.Stack.RemoveAt | Circus/Collections/Stack.cs:196-202 | succeeds exactly for an index in [0, Count) and then removes it |
| Stack.Stack.Reserve | Circus/Collections/Stack.cs:203-208 | keeps the elements and leaves at least size free slots |
| Stack.Stack.Resize | Circus/Collections/Stack.cs:215-224 | a fresh array of the size, with the elements cut to it |
| Stack.Stack.Trim | Circus/Collections/Stack.cs:242-246 | the array shrinks to Count with the elements kept |
| Stack.Stack.Clear | Circus/Collections/Stack.cs:86-96 | empties the stack; trim brings the array back to the capacity |
| Stack.Stack.Contains | Circus/Collections/Stack.cs:97-106 | scans the whole array, so a default value is also found in the unused tail |
| Stack.Stack.ToArray | Circus/Collections/Stack.cs:248-254 | a fresh array holding exactly the elements |
| Stack.PushThenPop | Circus/Collections/Stack.cs:168-185 | a pop right after a successful push succeeds, yields the pushed value and restores the elements; a push fails only on a full array with offset <= 0 |
| Pail.FilterMembers | Circus/Collections/Pail.cs:104-113 | the filtered elements are exactly the elements satisfying the predicate, no more of them than the source |
| Pail.SelectMembers | Circus/Collections/Pail.cs:115-124 | the selected values are exactly the images of source elements the selector accepts |
| Pail.SelectGeneralisesFilter | Circus/Collections/Pail.cs:104-124 | a selector that keeps the elements the predicate accepts selects what the filter keeps |
| Pail.FilterPrefix | Circus/Collections/Pail.cs:104-113 | filtering a prefix of the source gives a prefix of filtering the whole |
| Pail.SelectPrefix | Circus/Collections/Pail.cs:115-124 | selecting from a prefix of the source gives a prefix of selecting from the whole |
| Pail.Initialize | Circus/Collections/Pail.cs:125-127 | an empty vector sized to the source collection, or to 5 |
| Pail.Create | Circus/Collections/Pail.cs:104-113 | the pail holds the source elements that satisfy the predicate, in order, trimmed; it fails exactly for a non-collection source with more than 5 such elements and offset <= 0, holding the first 5 when the Add throws |
| Pail.CreateSelect | Circus/Collections/Pail.cs:115-124 | the pail holds the selected values in order, trimmed; it fails exactly for a non-collection source with more than 5 selected values and offset <= 0, holding the first 5 when the Add throws |
| Pail.Copy | Circus/Collections/Pail.cs:92-94 | the copy holds the same elements, trimmed |
| DocumentTray.DocumentTrayStackInfo.constructor | Circus.Wpf/Controls/DocumentTrayStackInfo.cs:42-46 | the next position starts at 0 |
| DocumentTray.DocumentTrayStackInfo.Pop | Circus.Wpf/Controls/DocumentTrayStackInfo.cs:64-66 | the next position moves down by one |
| DocumentTray.DocumentTrayStackInfo.Push | Circus.Wpf/Controls/DocumentTrayStackInfo.cs:67-69 | the next position moves up by one |
| DocumentTray.DocumentTrayStackInfo.IsDrop | Circus.Wpf/Controls/DocumentTrayStackInfo.cs:47-53 | a drop when toggled or past the stack; a toggled drop past the stack pops; update only for a toggled drop inside it |
| DocumentTray.DocumentTrayStackInfo.IsMoved | Circus.Wpf/Controls/DocumentTrayStackInfo.cs:54-63 | toggling on pushes and targets the old next, toggling off pops and targets the new next; moved when the target differs from the index |
| DocumentTray.DocumentTrayStackInfo.Reset | Circus.Wpf/Controls/DocumentTrayStackInfo.cs:73-77 | the next position becomes the value |
| DocumentTray.DocumentTrayStackInfo.Update | Circus.Wpf/Controls/DocumentTrayStackInfo.cs:78-82 | a toggled update pops; otherwise nothing changes |
| DocumentTray.ToggleOnOff | Circus.Wpf/Controls/DocumentTrayStackInfo.cs:54-63 | toggling an item on and then off restores the next position, and both moves target the same slot |
| BitSet.WithBitBits | Circus/Collections/BitSet.cs:172-179 | setting or clearing bit p of a word changes bit p to the value and no other bit |
| BitSet.PosInjective | Circus/Collections/BitSet.cs:172-179 | distinct non-negative indices below the word width have distinct bit positions |
| BitSet.RoundTrip | Circus/Collections/BitSet.cs:172-179 | a bit position read back as an integer is the index |
| BitSet.NegativeIndexAliases | Circus/Collections/BitSet.cs:160-162 | an index in (-32, 0) addresses word 0 and the same bit as index + 32 |
| BitSet.WordInRange | Circus/Collections/BitSet.cs:160-162 | below Size, the truncated word index is in range exactly for an index above -32 on a non-empty word array |
| BitSet.GetSize | Circus/Collections/BitSet.cs:163-165 | at least one word, and enough words for size bits with no spare word |
| BitSet.FewerWordsThanBits | Circus/Collections/BitSet.cs:188-199 | for any size above 1 there are fewer words than bits |
| BitSet.SetBitInBits | Circus/Collections/BitSet.cs:172-179 | setting index i changes the bit at i (negative i: at i + 32) and no other |
| BitSet.SetBitInBitsOf | Circus/Collections/BitSet.cs:172-179 | on the visible bits, setting i is a sequence update at i |
| BitSet.ExtendedBits | Circus/Collections/BitSet.cs:146-152 | appending zero words keeps every old bit and adds only clear bits |
| BitSet.OneWord | Circus/Collections/BitSet.cs:131-137 | a word equal to 1 has exactly bit 0 set |
| BitSet.BitSet.Bits | Circus/Collections/BitSet.cs:160-162 | the visible bits are Size booleans |
| BitSet.BitSet.constructor | Circus/Collections/BitSet.cs:78-81 | as written, filling with true through Fill stores the word 1, so only every 32nd bit reads true |
| BitSet.BitSet.Filled | Circus/Collections/BitSet.cs:78-81 | the corrected fill: every visible bit equals the value |
| BitSet.BitSet.Copy | Circus/Collections/BitSet.cs:61-66 | as written, the copy gets the words but keeps Size 0, so it shows no bits |
| BitSet.BitSet.CopyCorrected | Circus/Collections/BitSet.cs:61-66 | the copy has the same words, Size and bits |
| BitSet.BitSet.FromArray | Circus/Collections/BitSet.cs:71-76 | the bits are the array's and every spare bit is clear |
| BitSet.BitSet.Initialize | Circus/Collections/BitSet.cs:153-159 | a fresh all-clear word array sized for n bits |
| BitSet.BitSet.Set | Circus/Collections/BitSet.cs:172-179 | changes the addressed bit to the value and no other |
| BitSet.BitSet.FillBits | Circus/Collections/BitSet.cs:124-130 | as written: ORs a[j] into bit j for index <= j < count, so the offset is ignored and nothing is cleared |
| BitSet.BitSet.FillBitsCorrected | Circus/Collections/BitSet.cs:124-130 | writes a at index, leaving every other bit |
| BitSet.BitSet.FillWords | Circus/Collections/BitSet.cs:131-137 | as written: every word from index becomes 1 or 0 |
| BitSet.BitSet.FillCorrected | Circus/Collections/BitSet.cs:131-137 | every bit from index becomes the value, the earlier ones kept |
| BitSet.BitSet.Insert | Circus/Collections/BitSet.cs:146-152 | as written: grows, and moves Size, only when Size + count exceeds the word count; throws, changing nothing, exactly when the grown array would be shorter than the old one |
| BitSet.BitSet.InsertCorrected | Circus/Collections/BitSet.cs:146-152 | Size grows by count and the old bits are kept |
| BitSet.BitSet.Add | Circus/Collections/BitSet.cs:97-101 | the as-written insert followed by the as-written word fill; fails, changing nothing, exactly when the insert throws |
| BitSet.BitSet.AddCorrected | Circus/Collections/BitSet.cs:97-101 | appends count copies of the value to the bits |
| BitSet.BitSet.AddArray | Circus/Collections/BitSet.cs:91-95 | the as-written insert followed by the as-written array fill; fails, changing nothing, exactly when the insert throws |
| BitSet.BitSet.AddArrayCorrected | Circus/Collections/BitSet.cs:91-95 | appends the array to the bits |
| BitSet.BitSet.At | Circus/Collections/BitSet.cs:103-105 | as written: below Size, throws for an index of -32 or less or when there are no words, and otherwise succeeds, a negative index reading bit index + 32 |
| BitSet.BitSet.AtCorrected | Circus/Collections/BitSet.cs:103-105 | succeeds exactly for an index in [0, Size) and yields that bit |
| BitSet.BitSet.SetAt | Circus/Collections/BitSet.cs:181-186 | as written: below Size, throws, changing nothing, for an index of -32 or less or when there are no words, and otherwise sets the addressed bit and no other |
| BitSet.BitSet.SetAtCorrected | Circus/Collections/BitSet.cs:181-186 | succeeds exactly for an index in [0, Size) and updates that bit only |
| BitSet.BitSet.Any | Circus/Collections/BitSet.cs:138-145 | true exactly when some visible bit is set |
| BitSet.BitSet.ToArray | Circus/Collections/BitSet.cs:201-208 | a fresh array holding exactly the visible bits |
| BitSet.BitSet.Swap | Circus/Collections/BitSet.cs:188-199 | as written: throws, changing neither set, exactly when a Size exceeds its word count; otherwise each side receives a fresh copy of the other's first Size words, and the sizes are exchanged |
| BitSet.BitSet.SwapCorrected | Circus/Collections/BitSet.cs:188-199 | the two sets exchange their word arrays and sizes |
| BitSet.CopyWords | Circus/Collections/BitSet.cs:194-199 | a fresh array holding the first n words |
| BitSet.FilledExample | Circus/Collections/BitSet.cs:131-137 | a set of 40 bits filled with true reads bit 1 as false |
| BitSet.AddToEmptyExample | Circus/Collections/BitSet.cs:146-152 | adding one bit to an empty BitSet(0) leaves Size 0 |
| BitSet.AddArrayExample | Circus/Collections/BitSet.cs:124-130 | appending [true, true, true] after three set bits gives true, true, true, false, false, false |
| BitSet.AtNegativeExample | Circus/Collections/BitSet.cs:103-105 | At(-1) succeeds |
| BitSet.CopyExample | Circus/Collections/BitSet.cs:61-66 | a copy of a 3-bit set reports Size 0 |
| BitSet.SwapExample | Circus/Collections/BitSet.cs:188-199 | a 40-bit set holds 2 words, so Swap of two such sets throws |
| BitSet.SwapThenAtExample | Circus/Collections/BitSet.cs:188-199 | Swap of two empty sets leaves no words, after which At(-1) throws |
| BitSet.CopyThenAddExample | Circus/Collections/BitSet.cs:146-152 | the copy of a 40-bit set keeps 2 words with Size 0, so Add(3) asks for 1 word and throws |
| Chains.BucketOf | Circus/Collections/Set.cs:146-149 | the bucket index is below the bucket count |
| Chains.KeyInBucket | Circus/Collections/Set.cs:135-145 | in well-formed buckets a key is stored somewhere exactly when it is in its own bucket |
| Chains.PushWellFormed | Circus/Collections/Set.cs:111 | pushing a node on the front of its bucket keeps the buckets well formed and adds exactly that node and key |
| Chains.PushBag | Circus/Collections/Set.cs:111 | a push adds exactly the node |
| Chains.PushKeyBag | Circus/Collections/Set.cs:111 | a push adds exactly the node's key |
| Chains.RehashBag | Circus/Collections/Set.cs:206-221 | rehashing into new buckets keeps exactly the nodes and keys |
| Chains.RehashWellFormed | Circus/Collections/Set.cs:206-221 | rehashing into empty buckets gives well-formed buckets with the same nodes |
| Chains.EmptyWellFormed | Circus/Collections/Set.cs:160-163 | empty buckets are well formed |
| Chains.Position | Circus/Collections/Set.cs:137-141 | the first node of a chain holding the key |
| Chains.DropThrough | Circus/Collections/Set.cs:193 | dropping a chain through position p keeps it well formed and loses the keys of p + 1 nodes |
| Chains.CutAt | Circus/Collections/Set.cs:189-196 | unlinking only the node at p keeps the buckets well formed and loses exactly that node |
| Chains.SetValueAt | Circus/Collections/Map.cs:103 | overwriting a node's value keeps the buckets well formed and the keys unchanged |
| Chains.PushChain | Circus/Collections/Set.cs:210-218 | moving a chain pushes each node in order |
| Chains.RehashInto | Circus/Collections/Set.cs:206-221 | the new bucket array is the rehash of the old |
| Chains.WriteKeys | Circus/Collections/Set.cs:242-252 | writing a chain appends its keys in order |
| Chains.WritePairs | Circus/Collections/Map.cs:259-269 | writing a chain appends its key/value pairs in order |
| Set.Set.constructor | Circus/Collections/Set.cs:94-99 | an empty set with a prime bucket count at least the capacity (5 stays 5) |
| Set.Set.FromSet | Circus/Collections/Set.cs:164-171 | the copy shares the buckets' contents, count and hash |
| Set.Set.FromSeq | Circus/Collections/Set.cs:101-106 | the set holds exactly the source's values, each once |
| Set.Set.InitializeFrom | Circus/Collections/Set.cs:172-177 | fresh buckets holding exactly the source's values |
| Set.Set.Initialize | Circus/Collections/Set.cs:160-163 | fresh empty buckets of the capacity |
| Set.Set.GetBucketInfo | Circus/Collections/Set.cs:146-149 | the key's hash and a bucket index in range |
| Set.Set.Find | Circus/Collections/Set.cs:135-145 | found exactly when the value is in the set, at its first position in its bucket |
| Set.Set.Contains | Circus/Collections/Set.cs:132-134 | true exactly when the value is in the set |
| Set.Set.Item | Circus/Collections/Set.cs:59-63 | the value when present, the default otherwise |
| Set.Set.Add | Circus/Collections/Set.cs:107-117 | true exactly when the value was absent; then it is pushed on its bucket and counted, the buckets growing to a prime when full |
| Set.Set.ResizeCore | Circus/Collections/Set.cs:206-221 | a prime bucket count at least size, holding the same values |
| Set.Set.Remove | Circus/Collections/Set.cs:189-196 | as written: true exactly when present, the count drops by one, but the chain is cut through the value, losing the nodes before it |
| Set.Set.RemoveExact | Circus/Collections/Set.cs:189-196 | removes exactly the value |
| Set.Set.Reserve | Circus/Collections/Set.cs:197-199 | as written: rehashes to a prime at least size - Count, which can shrink the table |
| Set.Set.ReserveCorrected | Circus/Collections/Set.cs:197-199 | leaves at least size free buckets, growing only when needed |
| Set.Set.Resize | Circus/Collections/Set.cs:200-205 | ignores a size below Count; otherwise rehashes to a prime at least size |
| Set.Set.Trim | Circus/Collections/Set.cs:236-240 | rehashes to a prime at least Count when not empty |
| Set.Set.Clear | Circus/Collections/Set.cs:121-131 | the set ends empty; trim reallocates at the capacity |
| Set.Set.Empty | Circus/Collections/Set.cs:127-128 | empties every bucket in place |
| Set.Set.Swap | Circus/Collections/Set.cs:223-235 | the two sets exchange copies of their buckets and counts |
| Set.CopyBuckets | Circus/Collections/Set.cs:231-235 | a fresh array holding the same chains |
| Set.Set.ToArray | Circus/Collections/Set.cs:242-252 | the values bucket by bucket, padded with defaults to Count |
| Set.AddStep | Circus/Collections/Set.cs:172-177 | adding one source value keeps the set equal to the values seen so far |
| Set.RemoveLosesEarlierExample | Circus/Collections/Set.cs:193 | after adding 1 and then 2 to one bucket, removing 1 loses 2 as well while Count says 1 |
| Set.RemoveExactExample | Circus/Collections/Set.cs:189-196 | the corrected remove keeps 2 |
| Set.ReserveShrinksExample | Circus/Collections/Set.cs:198 | reserving 3 with 3 values in 5 buckets shrinks the table to 2 buckets |
| Set.ReserveCorrectedExample | Circus/Collections/Set.cs:197-199 | the corrected reserve leaves at least 6 buckets |
| Map.Map.constructor | Circus/Collections/Map.cs:83-88 | an empty map with a prime bucket count at least the capacity (5 stays 5) |
| Map.Map.FromSeq | Circus/Collections/Map.cs:90-95 | the map holds exactly the source's keys, each with the value of its first pair |
| Map.Map.InitializeFrom | Circus/Collections/Map.cs:186-191 | fresh buckets holding exactly the source's keys, each with the value of its first pair |
| Map.Map.Initialize | Circus/Collections/Map.cs:177-180 | fresh empty buckets of the capacity |
| Map.Map.GetBucketInfo | Circus/Collections/Map.cs:155-158 | the key's hash and a bucket index in range |
| Map.Map.Find | Circus/Collections/Map.cs:139-149 | found exactly when the key is in the map, at its first position in its bucket |
| Map.Map.FoundNode | Circus/Collections/Map.cs:139-149 | the node found holds the key's value |
| Map.Map.HasUnique | Circus/Collections/Map.cs:139-149 | a key has at most one value |
| Map.Map.KeyHasValue | Circus/Collections/Map.cs:150-154 | a key is in the map exactly when it has a value |
| Map.Map.Contains | Circus/Collections/Map.cs:136-138 | true exactly when the key is in the map |
| Map.Map.Get | Circus/Collections/Map.cs:150-154 | found exactly when the key is present, with its value; the default otherwise |
| Map.Map.Add | Circus/Collections/Map.cs:96-98 | true exactly when the key was absent; then it is counted and maps to the value, every other key keeping its values, and without a resize it is pushed on its bucket; otherwise nothing changes |
| Map.Map.AddOrUpdate | Circus/Collections/Map.cs:119-121 | afterwards the key has the value and every other key keeps its value |
| Map.Map.AddCore | Circus/Collections/Map.cs:99-117 | updates a present key only when asked, adds an absent one; other keys keep their values |
| Map.Map.SetValue | Circus/Collections/Map.cs:103 | overwrites the value in place, keeping every other key's value |
| Map.Map.Insert | Circus/Collections/Map.cs:110-117 | pushes a new node, growing to a prime when full; other keys keep their values |
| Map.Map.UpdateKeepsOthers | Circus/Collections/Map.cs:103 | an in-place value update changes no other key's value |
| Map.Map.AddKeepsOthers | Circus/Collections/Map.cs:110-117 | adding a node changes no other key's value |
| Map.Map.RemoveKeepsOthers | Circus/Collections/Map.cs:206-213 | unlinking a node changes no other key's value |
| Map.Map.GetOrAdd | Circus/Collections/Map.cs:170-176 | the present value, or the given value after adding it |
| Map.Map.SetItem | Circus/Collections/Map.cs:43 | as written: an absent key gets the value and is counted, a present key keeps its old value; no other key changes |
| Map.Map.SetItemCorrected | Circus/Collections/Map.cs:43 | the key has the value afterwards and no other key changes |
| Map.Map.ResizeCore | Circus/Collections/Map.cs:223-238 | a prime bucket count at least size, holding the same nodes |
| Map.Map.Remove | Circus/Collections/Map.cs:206-213 | as written: true exactly when present, the count drops by one, but the chain is cut through the key, losing the nodes before it |
| Map.Map.RemoveExact | Circus/Collections/Map.cs:206-213 | removes exactly the key, every other key keeping its value |
| Map.Map.Unlink | Circus/Collections/Map.cs:206-213 | unlinking one node removes exactly its key |
| Map.Map.Reserve | Circus/Collections/Map.cs:214-216 | as written: rehashes to a prime at least size - Count |
| Map.Map.ReserveCorrected | Circus/Collections/Map.cs:214-216 | leaves at least size free buckets, growing only when needed |
| Map.Map.Resize | Circus/Collections/Map.cs:217-222 | ignores a size below Count; otherwise rehashes to a prime at least size |
| Map.Map.Trim | Circus/Collections/Map.cs:253-257 | rehashes to a prime at least Count when not empty |
| Map.Map.Clear | Circus/Collections/Map.cs:125-135 | the map ends empty; trim reallocates at the capacity |
| Map.Map.Empty | Circus/Collections/Map.cs:125-135 | empties every bucket in place |
| Map.Map.Swap | Circus/Collections/Map.cs:240-252 | the two maps exchange copies of their buckets and counts |
| Map.CopyBuckets | Circus/Collections/Map.cs:248-252 | a fresh array holding the same chains |
| Map.Map.EnumerationsAgree | Circus/Collections/Map.cs:199-205 | Keys() and Values() enumerate matching pairs, each key once |
| Map.Map.ToArray | Circus/Collections/Map.cs:259-269 | the pairs bucket by bucket, padded with defaults to Count |
| Map.AddStep | Circus/Collections/Map.cs:186-191 | adding one source pair keeps the keys equal to the keys seen so far |
| Map.TwoInBucketZero | Circus/Collections/Map.cs:96-117 | adding 1 and then 2 under a constant hash chains 2 before 1 in bucket 0 |
| Map.RemoveLosesEarlierExample | Circus/Collections/Map.cs:210 | removing 1 from that map loses 2 as well while Count says 1 |
| Map.RemoveExactExample | Circus/Collections/Map.cs:206-213 | the corrected remove keeps 2 with its value |
| Map.SetItemKeepsOldExample | Circus/Collections/Map.cs:43 | setting m[1] = 20 over 10 leaves 10 |
| Map.SetItemCorrectedExample | Circus/Collections/Map.cs:43 | the corrected setter leaves 20 |
| Hierarchy.FirstHolding | Circus.Wpf/Data/HierarchicalCollectionCache.cs:68-77 | the first position holding the item, or the length |
| Hierarchy.ParentKey | Circus.Wpf/Data/HierarchicalCollectionCache.cs:68-77 | -1 exactly for a top-level item or an item no node holds; otherwise the key of the first node holding it |
| Hierarchy.Enroll | Circus.Wpf/Data/HierarchicalCollectionCache.cs:107-108 | each visited pair appends an accepted node whose parent key is looked up among the nodes before it |
| Hierarchy.EnrollConcat | Circus.Wpf/Data/HierarchicalCollectionCache.cs:102-108 | enrolling two runs of pairs is enrolling their concatenation |
| Hierarchy.EnrollWellParented | Circus.Wpf/Data/HierarchicalCollectionCache.cs:107-108 | every parent key is -1 or the key of an earlier node |
| Hierarchy.EnrollParents | Circus.Wpf/Data/HierarchicalCollectionCache.cs:107-108 | an enrolled node's parent key is -1 exactly for a top-level pair |
| Hierarchy.VisitRooted | Circus.Wpf/Data/HierarchicalCollectionCache.cs:107-113 | every parent in a visit is visited before its children |
| Hierarchy.VisitAllRooted | Circus.Wpf/Data/HierarchicalCollectionCache.cs:102-113 | every parent in a forest visit is visited before its children |
| Hierarchy.VisitUnder | Circus.Wpf/Data/HierarchicalCollectionCache.cs:109-113 | a child visit never yields a top-level pair |
| Hierarchy.VisitAllTops | Circus.Wpf/Data/HierarchicalCollectionCache.cs:102-106 | the top-level pairs of a forest visit are the source items in order |
| Hierarchy.MatchKeys | Circus.Wpf/Data/HierarchicalCollectionCache.cs:90-101 | the keys whose item satisfies the predicate, increasing |
| Hierarchy.AcceptedByPredicate | Circus.Wpf/Data/HierarchicalCollectionCache.cs:90-123 | after match and update, a node is accepted exactly when it or a descendant satisfies the predicate |
| Hierarchy.Rejected | Circus.Wpf/Data/HierarchicalCollectionCache.cs:54-60 | exactly the items of the nodes not accepted |
| Hierarchy.RejectedWithinExcluded | Circus.Wpf/Data/HierarchicalCollectionCache.cs:41 | the rejected items and the matches together are no more than the nodes |
| Hierarchy.AncestorStep | Circus.Wpf/Data/HierarchicalCollectionCache.cs:116-122 | the parent of an ancestor is an ancestor |
| Hierarchy.PromoteStep | Circus.Wpf/Data/HierarchicalCollectionCache.cs:118-121 | accepting the next ancestor keeps the climb's invariant |
| Hierarchy.ClosedUpwards | Circus.Wpf/Data/HierarchicalCollectionCache.cs:115-123 | every ancestor of an accepted node is accepted |
| Hierarchy.Settled | Circus.Wpf/Data/HierarchicalCollectionCache.cs:115-123 | after every match has been climbed, exactly the matches and their ancestors are accepted |
| Hierarchy.Climb | Circus.Wpf/Data/HierarchicalCollectionCache.cs:116-122 | climbing from the first t matches accepts them and their ancestors and keeps the parents and items |
| Hierarchy.Cache.constructor | Circus.Wpf/Data/HierarchicalCollectionCache.cs:43-46 | an empty cache with no filter |
| Hierarchy.Cache.Filter | Circus.Wpf/Data/HierarchicalCollectionCache.cs:47-53 | registers the source when empty, then accepts exactly the matches and their ancestors and counts the matches |
| Hierarchy.Cache.Refresh | Circus.Wpf/Data/HierarchicalCollectionCache.cs:52 | re-runs match and update over the same nodes |
| Hierarchy.Cache.Filtered | Circus.Wpf/Data/HierarchicalCollectionCache.cs:54-60 | the items of the nodes not accepted |
| Hierarchy.Cache.GetParent | Circus.Wpf/Data/HierarchicalCollectionCache.cs:68-77 | the key of the first node holding the parent item, -1 for none |
| Hierarchy.Cache.Invalidate | Circus.Wpf/Data/HierarchicalCollectionCache.cs:87-89 | the nodes are dropped, the running index kept |
| Hierarchy.Cache.Match | Circus.Wpf/Data/HierarchicalCollectionCache.cs:90-101 | each node's accept becomes the predicate on its item; the result is the matching keys and the count their number |
| Hierarchy.Cache.Register | Circus.Wpf/Data/HierarchicalCollectionCache.cs:102-106 | appends the nodes of a pre-order visit of the source forest |
| Hierarchy.Cache.RegisterItem | Circus.Wpf/Data/HierarchicalCollectionCache.cs:107-114 | appends the item's node, then its children's |
| Hierarchy.Cache.RegisterChildren | Circus.Wpf/Data/HierarchicalCollectionCache.cs:109-113 | appends the visits of the item's children in order |
| Hierarchy.Cache.Update | Circus.Wpf/Data/HierarchicalCollectionCache.cs:115-123 | accepts exactly the given matches and their ancestors, keeping parents and items |
| Duple.At | Circus/Duple.cs:36 | index 0 gives the first, 1 the second, anything else the default |
| Duple.Empty | Circus/Duple.cs:37 | both elements are the default |
| Duple.RotateLeft5IsRotation | Circus/Duple.cs:50 | the shift-or expression is a left rotation by 5 |
| Duple.CombineRecoversSum | Circus/Duple.cs:49-52 | xoring the second hash out of the combined hash leaves the spread first hash |
| Duple.CombineRecoversSecond | Circus/Duple.cs:49-52 | the combined hash determines the second hash for a fixed first one |
| Duple.CombineInjective | Circus/Duple.cs:49-52 | for a fixed first hash, different second hashes give different combined hashes |
| Duple.EqualsIsEquality | Circus/Duple.cs:60-68 | Equals is componentwise equality, and equal duples hash alike |
| Duple.CompareToIsLexicographic | Circus/Duple.cs:53-56 | CompareTo is 0 exactly for equal duples, antisymmetric, and negative exactly for the lexicographic order |
| Duple.CompareToTransitive | Circus/Duple.cs:53-56 | the order CompareTo defines is transitive |
| Vector.Inserted | Circus/Collections/Vector.cs:222-229 | the reference insert: one longer, the value at i, the elements before i kept and those after shifted by one |
| Vector.Removed | Circus/Collections/Vector.cs:264-268 | the reference removal: one shorter, the elements before i kept and those after shifted back by one |
| Vector.Reversed | Circus/Collections/Vector.cs:307-313 | the reference reversal: element k is the source element at length - 1 - k |
| Vector.InsertedRange | Circus/Collections/Vector.cs:231-239 | the reference range insert: prefix, then t, then the rest of the elements |
| Vector.InsertedRangeAsWritten | Circus/Collections/Vector.cs:231-239 | the range insert as the code performs it, as long as the source and t together |
| PrimeDetail.PrimeAbove | Circus.Core/hash/detail/prime-detail.h:109-116 | there is a prime above every n, so the upward search ends |
| PrimeDetail.SearchFound | Circus.Core/hash/detail/prime-detail.h:111-113 | the candidate the loop stops at is the promised neighbour |

## Left out

- Hash digests of keys. `Set` and `Map` take the farmhash digest of a string (`Some` for a string key under the default comparer) and `GetHashCode` as function parameters. The bucket hash is derived from these as the source derives it.
- Comparers. A key comparer is modelled as Dafny equality `==`. Custom `IEqualityComparer` instances, and the ordinal `Text.StringComparer`, are not modelled beyond that.
- Capacities of `Set` and `Map`. The model assumes the prime cache has already been filled when a container computes a capacity. In a process with no earlier prime query, `Numeric.NextPrime` answers 0 on its first call (see Findings), and the division by zero that follows is not modelled.
- Integer widths. Counts, sizes, capacities and indices are unbounded integers. The 32-bit `int` overflow of C# sizes is not modelled, and neither is the `checked` overflow in `ResizeCore`.
- PrimeDetail.IsImpl: `j * j` overflows `int` for i ≥ 46337²; the model uses unbounded integers.
- Enumerators. `GetEnumerator`, `Begin`/`End` and `IEnumerable` sources are modelled as sequences in enumeration order. `Set` and `Map` enumerate bucket by bucket.
- The `Map(Map)` copy constructor (Map.cs:74-78, 181-185). Its array copy shares the node objects, so the two maps would alias. Only the sequence-of-pairs source is modelled (`Map.Map.FromSeq`).
- `Vector` range operations. `Reverse(index, count)`/`ReverseAt`, the non-collection `Insert(index, IEnumerable)` path and `InsertAt(index, IEnumerable)` (Vector.cs:257-263) are not modelled separately. The collection path is modelled as `InsertCollection`.
- `Stack.Reverse`, `Stack.Swap` and the enumerable constructor of `Stack`.
- Exceptions. An operation that throws in the source (`Vector.Vector.Add`, `Stack.Stack.Push`, `Stack.Stack.Peek`, `Vector.Vector.FromEnumerable`, `Pail.Create`, `Pail.CreateSelect`, `BitSet.BitSet.Insert`, `BitSet.BitSet.Add`, `BitSet.BitSet.AddArray`, `BitSet.BitSet.At`, `BitSet.BitSet.SetAt`, `BitSet.BitSet.Swap`) reports failure through a boolean result. The object the exception leaves behind is still described, although the source caller never sees a constructed object.
- Vector.Vector.Insert: requires an index in [0, Count], the range `InsertAt` checks. Called directly with Count < index < Size, the source writes past Count without throwing, and with a larger or negative index it throws after `Reserve(1)`; neither is modelled.
- Vector.Vector.InsertCollection: requires an index in [0, Count], the range `InsertAt` checks. Other indices, for which the source throws part-way, are not modelled.
- Vector.Vector.Remove: requires an index in [0, Count), the range `RemoveAt` checks. With another index the source decrements Count and then throws in `Array.Copy`; that partial update is not modelled.
- Vector.Vector.RemoveRange: requires a range inside [0, Count), as `RemoveRangeAtCorrected` checks. With another range the source lowers Count and then throws; that partial update is not modelled.
- Stack.Stack.Remove: requires an index in [0, Count), the range `RemoveAt` checks. With another index the source decrements Count and then throws in `Array.Copy`; that partial update is not modelled.
- Vector.Vector.Resize, Stack.Stack.Resize: the size is a natural number. `Resize(-1)` sets Count to -1 and then throws in `new T[-1]`; that partial update is not modelled.
- Vector.Vector.constructor, Vector.Vector.Fill, Stack.Stack.constructor: the capacity is a natural number. A negative capacity throws in the array allocation, and no object results.
- The documented shrink of `Stack` on `Pop` (Stack.cs:21-22) never happens. `Reclaim` tests the pre-decrement count against 0, and `Stack.Stack.Reclaim` states this. No corrected Pop is modelled.
- `ToString` members, `MonitorSize` and the unused `Bswap64`.
- FarmhashDetail.RotateIsRightRotation: proved for shift 0 and for each constant shift the hash functions pass (18 to 44), not for a symbolic shift in (0, 64).
- Text.TraitsCompare: `std::char_traits<char>::compare` fixes only the sign of its result. The -1/0/1 range is the model's normalisation, and `Text.Compare` inherits it.
- Api.LastNotOf: requires n > 0. For an empty string, `last_not_of` starts from `begin() + (length() - 1)`, which wraps to `SIZE_MAX` and reads outside the string; that has no defined result to model.
- `BitSet` negative sizes: sizes are natural numbers. Negative indices are modelled: those in (-32, 0) alias word 0, and -32 and below throw.
- Farmn.HashLen16 / FarmhashDetail.Hash128to64: the identity between the two-argument `HashLen16` and `Hash128to64` with the constant multiplier is not proved. Both are modelled as written.
- HierarchicalCollectionCache.
  - `IsChildren` reflection is abstracted into a `children` function.
  - A `rank` function with ranks that decrease towards the children stands for the finite depth of the object graph, without which `Register` would not terminate.
  - Object identity of items is modelled as `==`.
  - `Predicate<object>` is a function parameter.
  - The `Map<int, Node>` is modelled as the sequence of nodes in key order. The source enumerates that map bucket by bucket (Map.cs:159-165), which is key order only while every key is below the bucket count. `Invalidate` clears the map back to 5 buckets while the running index keeps counting, so after it the orders differ: keys 3, 4 and 5 in 5 buckets enumerate as 5, 3, 4.
  - Hierarchy.Cache.Filtered: yields the rejected items in key order, not in the bucket order the source uses after `Invalidate`.
  - Hierarchy.Cache.Match: builds the match list in key order, not in the bucket order the source uses after `Invalidate`.
  - Hierarchy.MatchKeys: states that the match keys increase, which holds of the source only before `Invalidate`.
  - Hierarchy.Cache.GetParent: returns the first holder in key order, not in bucket order after `Invalidate`.
  - Hierarchy.ParentKey: takes the first node holding the item in key order, not in bucket order after `Invalidate`.
  - `Vector<int>` match lists are sequences.
- Duple.CombineRecoversSum: stated through the spread first hash `rotl(x, 5) + x` and not through the C# `int` casts, which are the same bits.
- Duple ordering uses a comparison function parameter in place of `Comparer<T>.Default`. `CompareToTransitive` assumes that comparison is a consistent total order.

## Findings

| source | as written | input that shows it | evidently intended | confidence | as-written member | corrected member |
|---|---|---|---|---|---|---|
| Circus.Core/hash/detail/prime-detail.h:68-72 | `bsearch` reads the cache size before `init()` fills the cache, so the call that fills it searches an empty range and returns 0 | a first `prime::is(3)` in a process answers false; a first `prime::next(10)` answers 0, so a `Set` or `Map` built with capacity 10, or a default one reaching 5 elements, divides by zero in `hash % 0` (Set.cs:148, Set.cs:214) | fill the cache, then search it | high, not executed | Prime.FirstCallExample, PrimeDetail.Cache.BSearch | PrimeDetail.Cache.BSearchCorrected, Prime.IsCorrected |
| Circus/Collections/Vector.cs:234 | the insert of a collection shifts only when `index < Count - 1`, so inserting at `Count - 1` overwrites the last element | inserting [3] at 1 into [1, 2] gives [1, 3, 0] | shift whenever `index < Count` | high, not executed | Vector.InsertCollectionExample, Vector.Vector.InsertCollection | Vector.Vector.InsertCollectionCorrected |
| Circus/Collections/Vector.cs:285 | `RemoveAt(index, count)` rejects `index + count == Count` | removing the last element with RemoveAt(Count - 1, 1) fails | accept every range inside [0, Count) | high, not executed | Vector.RangeGuardRejectsTail, Vector.Vector.RemoveRangeAt | Vector.Vector.RemoveRangeAtCorrected |
| Circus/Collections/Set.cs:193 | `Remove` overwrites the bucket head with the found node's successor | after adding 1 and then 2 to the same bucket, removing 1 also loses 2 while Count says 1 | unlink only the found node | high, not executed | Set.RemoveLosesEarlierExample, Set.Set.Remove | Set.Set.RemoveExact |
| Circus/Collections/Map.cs:210 | `Remove` overwrites the bucket head with the found node's successor | after adding keys 1 and then 2 to bucket 0, removing 1 also loses 2 | unlink only the found node | high, not executed | Map.RemoveLosesEarlierExample, Map.Map.Remove | Map.Map.RemoveExact |
| Circus/Collections/Set.cs:198 | `Reserve(size)` resizes to `NextPrime(size - Count)` | 3 values in 5 buckets, `Reserve(3)` leaves 2 buckets | grow to leave at least `size` free buckets | medium, not executed | Set.ReserveShrinksExample, Set.Set.Reserve, Map.Map.Reserve | Set.Set.ReserveCorrected, Map.Map.ReserveCorrected |
| Circus/Collections/Map.cs:43 | the indexer setter calls `Add(key, value, false)`, which keeps an existing value | `m[1] = 10; m[1] = 20;` leaves 10 | overwrite the value | low, not executed | Map.SetItemKeepsOldExample, Map.Map.SetItem | Map.Map.SetItemCorrected |
| Circus/Collections/BitSet.cs:131-137 | `Fill(index, value)` writes the integer 1 into each word, setting one bit in 32 | a 40-bit set filled with true reads bit 1 as false | write all-ones words | high, not executed | BitSet.FilledExample, BitSet.BitSet.constructor | BitSet.BitSet.Filled, BitSet.BitSet.FillCorrected |
| Circus/Collections/BitSet.cs:124-130 | `Fill(index, count, array)` ORs `array[j]` into bit `j` for `index <= j < count`, mixing positions and offsets | three set bits, then appending [true, true, true], gives true, true, true, false, false, false | write `array[j - index]` at `j` | high, not executed | BitSet.AddArrayExample, BitSet.BitSet.AddArray | BitSet.BitSet.AddArrayCorrected, BitSet.BitSet.FillBitsCorrected |
| Circus/Collections/BitSet.cs:147 | `Insert` compares `Size + count` with the word count and moves `Size` only when it grows | adding one bit to an empty BitSet(0) leaves Size 0 | always move `Size` | high, not executed | BitSet.AddToEmptyExample, BitSet.BitSet.Insert | BitSet.BitSet.InsertCorrected, BitSet.BitSet.AddCorrected |
| Circus/Collections/BitSet.cs:104 | `At` and `SetAt` check only `index < Size` | `At(-1)` succeeds | reject negative indices | high, not executed | BitSet.AtNegativeExample, BitSet.BitSet.At | BitSet.BitSet.AtCorrected, BitSet.BitSet.SetAtCorrected |
| Circus/Collections/BitSet.cs:61-66 | the copy constructor copies the words but leaves `Size` at 0 | a copy of a 3-bit set reports Size 0 | copy `Size` too | high, not executed | BitSet.CopyExample, BitSet.BitSet.Copy | BitSet.BitSet.CopyCorrected |
| Circus/Collections/BitSet.cs:188-199 | `Swap` copies `Size` words from each side, but `Size` counts bits, so `Array.Copy` runs past the word array of every set of more than one bit | a 40-bit set has 2 words and Swap copies 40 | exchange the word arrays | high, not executed | BitSet.SwapExample, BitSet.BitSet.Swap | BitSet.BitSet.SwapCorrected |
