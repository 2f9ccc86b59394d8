# Frama-C executable libc and E-ACSL runtime: a Dafny model

This project models the parts of Frama-C that do real work in C: the executable C library under
`share/libc`, the ACSL axioms that describe its strings, the guarded library calls, block tree and
bit runs of the E-ACSL runtime, and the total order on doubles of the C bindings. What the code promises is
proved for all inputs. Where a promise does not hold, the code is modelled as written, a concrete
input is given, and the exact condition under which it does hold is proved.

Memory is one flat array of bytes and a pointer is an index, so overlap and aliasing are real. A
routine that only reads receives a ghost set of readable addresses; `CMemory.Load` demands that an
address is in it, so each such routine reads exactly within the ranges its contract lists. A
string's length is the least NUL offset (`CMemory.Run`). NULL results are `None`, an abort of the
monitored program is a result value, and every nondeterministic choice of the library stubs is an
argument. Bytes are numbers below 256; `char` is signed where that matters (`getline`). A 64-bit
word is a number below 2^64 with bitwise operators defined bit by bit.

| module | models |
|---|---|
| `CMemory` | flat memory, strings in it, read permissions |
| `StringCopy`, `StringSearch`, `StringCompare` | `share/libc/string.c` |
| `StringAxioms` | `share/libc/__fc_string_axiomatic.h` |
| `Guards` | `e_acsl_libc_replacements.h` over a table of tracked blocks |
| `Prefixes`, `BitTree` | `e_acsl_bittree.h`: the search for common prefixes and the prefix tree of blocks |
| `Words`, `Bits` | 64-bit words and `e_acsl_bits.h` |
| `FloatOrder` | `float_compare_total` and `float_is_negative` of `c_bindings.c` |
| `GetLine`, `Glob` | `share/libc/stdio.c`, `share/libc/glob.c` |
| `Atoi`, `Calloc`, `Environment` | `share/libc/stdlib.c` |

Results that differ from what the source says of itself:

- The axioms `memcmp_strlen_left/right` contradict `strlen_pos_or_null` and `strlen_neg` for every
  interpretation of `strlen` (`StringAxioms.MemCmpStrLenInconsistent`); they need the guard
  `0 <= strlen(s)`.
- Without those axioms the loops can meet `strcmp_zero` and `strncmp_zero`: in every memory some `strlen` that
  meets its axioms makes them do so on all arguments, `strcmp` wherever it returns
  (`StringAxioms.AxiomsAreMet`). A given `strlen` does so exactly unless it gives two unterminated
  strings that differ the same negative number (`StringAxioms.LoopsMeetExact`), and the unguarded
  `memcmp_strlen_left` forces just that (`StringAxioms.UnguardedConfuses`).
- The contract of `strcat` asks for no separation; the loop runs off memory exactly when a
  non-empty `src` shares the terminator of `dest` (`Guards.StrCatContractExact`).
- The guard of `memcpy` refuses two calls that the contract allows (`Guards.BuiltinMemCpy`). One of
  them exists because `valid_read_or_empty` checks a range that starts at 1.
- `strcasecmp` has the POSIX sign exactly when one folded string is a prefix of the other
  (`StringCompare.CaseCompareSign`).
- `getline` drops byte 0xFF, which as a signed `char` equals `EOF` (`GetLine.RunExact`).
- `getline` tests the wrong pointer after its first allocation. If that fails, the first byte of the
  stream is written through NULL, unless the call sees an end of file or byte 0xFF first
  (`GetLine.ReadLine`).
- `putenv` reports what it did exactly when it takes the branch that stores and a full environment
  does not draw the code 0 (`Environment.PutEnvReports`). Otherwise it returns 0 and has stored
  nothing (`Environment.PutEnvForgets`, `Environment.PutEnvFullButZero`).
- `disjoint_spaces` refuses an empty range strictly inside another one, which is separated from it
  (`Guards.DisjointMeaning`, `Guards.EmptyRangeRefused`).
- `bt_find` finds what a scan of all blocks finds, except in a block that ends at the very last
  address (`BitTree.FindAgrees`, `BitTree.LastAddressMissed`). The one remembered alternative of its
  descent is always enough.
- `bt_insert` keeps the tree in shape exactly for a new base address (`BitTree.InsertExact`). With an
  address that is there already, removing the new block takes away the old one
  (`BitTree.DuplicateRemoved`).
- Comments ask whether two recomputations of a mask are necessary. The one in `bt_remove` is not
  (`BitTree.RemoveWithoutRefresh`). The one in `bt_insert` is the only assignment of the new parent's
  mask below the root, and no other mask keeps the shape (`BitTree.JoinMaskExact`).
- `strncpy` is right in more placements than its contract allows: exactly unless dest starts above
  src in the bytes that are read, and even then if all n bytes are copied and repeat with that
  distance (`StringCopy.StrNCpyExact`).

## Model

| member | source | states |
|---|---|---|
| `StringCopy.MemOverlapMeaning` | share/libc/string.c:44-70 | without wrap-around, `memoverlap` is 0, -1 or 1 exactly for separated ranges, overlap with p first, overlap with q first |
| `StringCopy.CopyUpExact` | share/libc/string.c:38-40 | the ascending copy moves every memory content correctly if and only if dest does not start strictly inside src |
| `StringCopy.CopyUpSmears` | share/libc/string.c:38-40 | an ascending copy onto a higher start leaves memory periodic, each written byte repeating the one dest-src below it |
| `StringCopy.CopyUpFails` | share/libc/string.c:38-40 | for every dest strictly inside src, a memory content that the ascending copy gets wrong |
| `StringCopy.CopyDownMoves` | share/libc/string.c:97-99 | the descending copy is a move when src does not start strictly inside dest |
| `StringCopy.DirectionExact` | share/libc/string.c:77-100 | `memmove` copies up exactly where the ascending copy moves every memory content correctly |
| `StringCopy.MemCpy` | share/libc/string.c:30-42 | `memcpy` is the ascending copy, and a move outside the one overlap that breaks it |
| `StringCopy.MemMove` | share/libc/string.c:72-102 | for every placement, dest holds the original src bytes and no other byte changes |
| `StringCopy.StrCpyExact` | share/libc/string.c:204-211 | the copy loop finishes inside memory if and only if src is terminated, fits, and dest does not start within (src, src+strlen]; then it moves strlen+1 bytes |
| `StringCopy.StrCpy` | share/libc/string.c:204-211 | in place, under exactly that condition, memory becomes the move of strlen(src)+1 bytes |
| `StringCopy.StrCpyString` | share/libc/string.h:345-354 | after that move the string at dest is the string that was at src |
| `StringCopy.StrCatExact` | share/libc/string.c:179-188 | for terminated strings `strcat` finishes if and only if there is room and no non-empty src shares dest's terminator; other overlaps are harmless |
| `StringCopy.StrCat` | share/libc/string.c:179-188 | under that condition memory becomes the move of src with its terminator to the end of dest |
| `StringCopy.StrCatString` | share/libc/string.h:399-412 | after that move the string at dest is old dest followed by old src |
| `StringCopy.StrNCpy` | share/libc/string.c:213-223 | in place, for every run that stays in memory, the two loops leave what the reference copy leaves |
| `StringCopy.StrNCpyExact` | share/libc/string.c:213-223 | the copy stays in memory and leaves the cut-off or NUL-padded source with no other byte changed if and only if there is room, n bytes or a string to read, and dest does not start above src in the bytes read or all n are copied and repeat |
| `StringCopy.SmearExact` | share/libc/string.c:216-219 | with dest in the bytes still to be read, the result is right if and only if n bytes are copied and repeat with the distance from src to dest |
| `StringCopy.StrNCpyString` | share/libc/string.h:356-373 | a source shorter than n arrives as an equal string, a longer one leaves no NUL in the n bytes |
| `StringSearch.StrLen` | share/libc/string.c:104-109 | the result is the least NUL offset, with no read past it |
| `StringSearch.StrNLen` | share/libc/string.c:111-116 | the result is the length of the string cut off at maxlen, reading no more than that |
| `StringSearch.StrChr` | share/libc/string.c:225-232 | first occurrence in the strlen+1 bytes, the same value `memchr` gives there |
| `StringSearch.StrRChr` | share/libc/string.c:234-240 | last occurrence in the strlen+1 bytes, the same value `memrchr` gives there |
| `StringSearch.MemChr` | share/libc/string.c:242-249 | first occurrence in n bytes, reading only up to it |
| `StringSearch.MemRChr` | share/libc/string.c:251-258 | last occurrence in n bytes |
| `StringSearch.FirstLast` | share/libc/string.c:225-258 | first and last occurrence are NULL together, ordered, and equal exactly when the byte does not occur twice |
| `StringSearch.MatchLength` | share/libc/string.c:266-268 | the inner loop reaches the end of the needle exactly where it occurs, with no read past either terminator |
| `StringSearch.StrStr` | share/libc/string.c:260-272 | the least index where needle occurs, NULL if and only if it occurs nowhere, with no read past either terminator |
| `StringSearch.OccursMeaning` | share/libc/string.c:260-272 | a needle occurs where a slice of the haystack equals it |
| `StringCompare.StrCmp` | share/libc/string.c:127-134 | the result is the first byte difference of the two strings, with no read past either terminator |
| `StringCompare.StrCmpOrder` | share/libc/string.c:127-134 | negative, positive and zero exactly for lexicographically less, greater and equal strings of unsigned bytes |
| `StringCompare.StrCmpSign` | share/libc/string.c:127-134 | the same for any two terminated strings in memory |
| `StringCompare.CompareSwap` | share/libc/string.c:127-134 | swapping the arguments negates the result |
| `StringCompare.CompareTransitive` | share/libc/string.c:127-134 | the order is transitive, strictly so if one step is strict |
| `StringCompare.StrNCmp` | share/libc/string.c:136-145 | the comparison of the two strings cut off at n, reading n bytes or up to a terminator |
| `StringCompare.StrNCmpIsStrCmp` | share/libc/string.c:136-145 | with n above the shorter length `strncmp` equals `strcmp` |
| `StringCompare.MemCmp` | share/libc/string.c:147-155 | the first difference of two byte ranges |
| `StringCompare.CompareBytesZero` | share/libc/__fc_string_axiomatic.h:35-45 | the result is zero if and only if all bytes are equal |
| `StringCompare.MemCmpIsStrCmp` | share/libc/string.c:147-155 | `memcmp` over one byte more than the shorter string equals `strcmp`, for any two lengths |
| `StringCompare.StrCaseCmp` | share/libc/string.c:159-177 | the loop computes the case-ignoring comparison, with no read past either terminator |
| `StringCompare.CaseCompareZero` | share/libc/string.c:159-177 | zero if and only if the folded strings are equal |
| `StringCompare.CaseCompareZeroMeaning` | share/libc/string.c:159-177 | in numbers: zero if and only if the lengths are equal and at each position the bytes are equal or a byte from 65 to 90 and the one 32 above it |
| `StringCompare.CaseCompareMeaning` | share/libc/string.c:159-177 | in numbers: the first other pair gives the difference of its small letters, second minus first; without one the shorter string gives -1 or 1 |
| `StringCompare.CaseCompareSwap` | share/libc/string.c:159-177 | swapping the arguments negates the result |
| `StringCompare.CaseCompareTransitive` | share/libc/string.c:159-177 | the preorder is transitive, strictly so if one step is strict |
| `StringCompare.EqualIgnoringCase` | share/libc/string.c:159-177 | strings that `strcmp` calls equal stay equal |
| `StringCompare.CaseCompareSign` | share/libc/string.c:159-177 | the sign is the POSIX one if and only if one folded string is a prefix of the other, and the opposite one otherwise |
| `StringCompare.CaseCompareReversed` | share/libc/string.c:164 | "a" against "b" has the wrong sign |
| `StringAxioms.StrLenAxioms` | share/libc/__fc_string_axiomatic.h:89-117 | all further axioms on `strlen` alone follow from the first two, for every function that interprets `strlen` |
| `StringAxioms.LenIs` | share/libc/__fc_string_axiomatic.h:78-87 | such a function is the least NUL offset where there is a NUL and negative exactly where there is none |
| `StringAxioms.BothAreStrLen` | share/libc/__fc_string_axiomatic.h:75-87 | such functions exist in every memory, one the same and one different for all unterminated strings |
| `StringAxioms.ReadsFromString` | share/libc/__fc_string_axiomatic.h:75-76 | both depend on the bytes from the string on only, as the `reads` clause asks |
| `StringAxioms.MemCmpZero` | share/libc/__fc_string_axiomatic.h:35-45 | `memcmp` is zero exactly when all n bytes agree, across two memories |
| `StringAxioms.MemCmpStrLenGuarded` | share/libc/__fc_string_axiomatic.h:119-135 | the axioms linking `memcmp` and `strlen` hold for a terminated string and every `strlen` |
| `StringAxioms.RightIsLeft` | share/libc/__fc_string_axiomatic.h:123-135 | the right-hand axioms are the left-hand ones with the strings swapped, for any interpretation of `strlen` |
| `StringAxioms.MemCmpStrLenInconsistent` | share/libc/__fc_string_axiomatic.h:119-121 | unguarded, the axiom contradicts `strlen_pos_or_null` and `strlen_neg` whatever function interprets `strlen` |
| `StringAxioms.UnguardedFails` | share/libc/__fc_string_axiomatic.h:119-130 | a memory in which both unguarded axioms fail for every `strlen` |
| `StringAxioms.LeftAxiomExact` | share/libc/__fc_string_axiomatic.h:119-121 | for every `strlen` the unguarded axiom holds in a memory if and only if all strings end there, or none does and `strlen` is the same for all |
| `StringAxioms.ShiftLeftAxiomExact` | share/libc/__fc_string_axiomatic.h:127-130 | for every `strlen` the unguarded shifted axiom holds in a memory if and only if all strings end there |
| `StringAxioms.StrCmpZeroExact` | share/libc/__fc_string_axiomatic.h:143-147 | the loop of `strcmp` never returns exactly on two unterminated strings that never differ; where it returns, it meets `strcmp_zero` if and only if one of the strings ends or their `strlen` differ, for every `strlen` |
| `StringAxioms.StrNCmpZeroExact` | share/libc/__fc_string_axiomatic.h:155-159 | for every `strlen` the loop of `strncmp` meets `strncmp_zero` if and only if it is not given two unterminated strings of the same `strlen` that differ below n |
| `StringAxioms.LoopsMeetExact` | share/libc/__fc_string_axiomatic.h:139-161 | for every `strlen` both loops meet their axioms on two strings, for all n, if and only if these do not both lack an end, have the same `strlen` and differ |
| `StringAxioms.AxiomsAreMet` | share/libc/__fc_string_axiomatic.h:75-161 | in every memory there is a `strlen` that meets its axioms and with which both loops meet theirs on all strings and all n |
| `StringAxioms.UnguardedConfuses` | share/libc/__fc_string_axiomatic.h:119-121 | with the unguarded axiom both loops fail theirs on any two unterminated strings that differ, for every `strlen` |
| `StringAxioms.UnterminatedFails` | share/libc/__fc_string_axiomatic.h:143-159 | a memory and two strings on which both loops return -1 and both axioms ask for 0, for every `strlen` that gives them the same number |
| `StringAxioms.StrCmpLoop` | share/libc/string.c:127-134 | on terminated strings the loop in the logic memory returns the comparison that the modelled `strcmp` returns |
| `StringAxioms.StrLenMeetsAxioms` | share/libc/string.c:104-109 | on a terminated string the loop's result is the logic `strlen`, whichever function that is |
| `StringAxioms.StrCmpMeetsAxiom` | share/libc/string.c:127-134 | on terminated strings the loop of `strcmp` meets `strcmp_zero` for every `strlen` |
| `StringAxioms.StrNCmpMeetsAxiom` | share/libc/string.c:136-145 | the loop of `strncmp` on n readable bytes meets `strncmp_zero` under exactly that condition, for every `strlen` |
| `StringAxioms.StrChrMeetsAxiom` | share/libc/__fc_string_axiomatic.h:163-172 | `strchr` finds a byte exactly when the axiom says it is in the string |
| `Guards.Find` | src/plugins/e-acsl/share/e-acsl/bittree_model/e_acsl_bittree.h:340-342 | the block returned is tracked and holds the address; none is returned only if no block holds it |
| `Guards.AllocatedMeaning` | src/plugins/e-acsl/share/e-acsl/bittree_model/e_acsl_bittree_mmodel.c:234-265 | the runtime tests `allocated` and `writeable` are the clauses \valid_read and \valid, and imply the bytes lie in memory |
| `Guards.DisjointMeaning` | src/plugins/e-acsl/share/e-acsl/e_acsl_libc_replacements.h:148-154 | without wrap-around `disjoint_spaces` is separation if and only if neither range is empty and strictly inside the other |
| `Guards.EmptyRangeRefused` | src/plugins/e-acsl/share/e-acsl/e_acsl_libc_replacements.h:148-154 | an empty range at 12 and five bytes at 10 are separated and refused |
| `Guards.DisjointIsNoOverlap` | src/plugins/e-acsl/share/e-acsl/e_acsl_libc_replacements.h:150-154 | `disjoint_spaces` agrees with `memoverlap` being 0 if and only if no range wraps around below the start of the other, so always without wrap-around |
| `Guards.ValidNString` | src/plugins/e-acsl/share/e-acsl/e_acsl_libc_replacements.h:53-74 | each negative code exactly in its case; otherwise `strnlen(s,n)` for n > 0 and `strlen(s)` for n < 0 |
| `Guards.ValidateString` | src/plugins/e-acsl/share/e-acsl/e_acsl_libc_replacements.h:114-144 | each abort exactly in its case; for an unbounded string the guard passes exactly under the contract's validity clause and returns the length |
| `Guards.ValidateWriteableSpace` | src/plugins/e-acsl/share/e-acsl/e_acsl_libc_replacements.h:164-174 | passes exactly for a writable range, with the two abort messages told apart |
| `Guards.ValidateOverlappingSpaces` | src/plugins/e-acsl/share/e-acsl/e_acsl_libc_replacements.h:176-181 | passes exactly where `disjoint_spaces` holds; without wrap-around that is separation if and only if neither range is empty and strictly inside the other |
| `Guards.BuiltinStrCpy` | src/plugins/e-acsl/share/e-acsl/e_acsl_libc_replacements.h:195-206 | proceeds if and only if the contract of `strcpy` holds in the block table; then src is moved to dest, else nothing changes |
| `Guards.BuiltinMemCpy` | src/plugins/e-acsl/share/e-acsl/e_acsl_libc_replacements.h:274-279 | proceeds if and only if the contract of `memcpy` holds, two named calls aside; then dest holds the source bytes, else nothing changes |
| `Guards.MemCpyReadonlyGap` | share/libc/string.h:45-49 | no byte into a read-only block: the contract holds and the guard refuses |
| `Guards.MemCpyEmptyGap` | share/libc/string.h:51-52 | one byte from an empty block: the contract holds and the guard refuses |
| `Guards.CheckStrCat` | src/plugins/e-acsl/share/e-acsl/e_acsl_libc_replacements.h:236-248 | the four checks pass if and only if both strings are valid, the result fits dest's block and the strings are separated |
| `Guards.GuardedStrCat` | src/plugins/e-acsl/share/e-acsl/e_acsl_libc_replacements.h:236-250 | in every accepted layout the result is old dest followed by old src, inside dest's block |
| `Guards.BuiltinStrCat` | src/plugins/e-acsl/share/e-acsl/e_acsl_libc_replacements.h:236-250 | proceeds exactly when its guard holds; then only the appended range changes, else nothing |
| `Guards.StrCatContractExact` | share/libc/string.h:399-412 | under the contract without separation `strcat` finishes if and only if no non-empty src shares dest's terminator |
| `Guards.StrCatContractGap` | share/libc/string.h:399-412 | "AB" appended with its own tail satisfies the contract and runs off memory |
| `Guards.StrCpyContractMeaning` | src/plugins/e-acsl/share/e-acsl/e_acsl_libc_replacements.h:195-206 | in addresses: the guard of `strcpy` passes if and only if src is a string inside a block and as many bytes at dest lie in a writable block and apart from it |
| `Guards.StrCatGuardMeaning` | src/plugins/e-acsl/share/e-acsl/e_acsl_libc_replacements.h:236-248 | in addresses: the same for `strcat`, with room behind the string at dest |
| `Guards.MemCpyGuardMeaning` | src/plugins/e-acsl/share/e-acsl/e_acsl_libc_replacements.h:274-279 | in addresses: the guard of `memcpy` passes if and only if both ranges lie in blocks, that of dest writable, and apart |
| `Prefixes.LongestMask` | src/plugins/e-acsl/share/e-acsl/bittree_model/e_acsl_bittree.h:96-131 | the walk through the two tables ends, at the longest mask on which the addresses agree: the whole contract of `mask` |
| `Prefixes.SearchStep` | src/plugins/e-acsl/share/e-acsl/bittree_model/e_acsl_bittree.h:81-89 | each table entry halves the range that the mask is in, or names the mask |
| `Prefixes.MaskFits` | src/plugins/e-acsl/share/e-acsl/bittree_model/e_acsl_bittree.h:119 | the comparison of `nxor` with a mask is the question whether the addresses agree on it |
| `Prefixes.PrefixOrder` | src/plugins/e-acsl/share/e-acsl/bittree_model/e_acsl_bittree.h:369-375 | masked addresses compare as the addresses do without their low bits |
| `BitTree.SharedPrefix` | src/plugins/e-acsl/share/e-acsl/bittree_model/e_acsl_bittree.h:151 | every block below a node agrees with it on its mask |
| `BitTree.Ordered` | src/plugins/e-acsl/share/e-acsl/bittree_model/e_acsl_bittree.h:368-372 | every block on the left starts below every block on the right |
| `BitTree.DistinctBases` | src/plugins/e-acsl/share/e-acsl/bittree_model/e_acsl_bittree.h:304-309 | no two blocks of a tree have the same base address |
| `BitTree.FindBelow` | src/plugins/e-acsl/share/e-acsl/bittree_model/e_acsl_bittree.h:343-386 | the loop with one remembered alternative ends and answers with the block that starts closest below the address, if that reaches it; with none exactly otherwise |
| `BitTree.FindAgrees` | src/plugins/e-acsl/share/e-acsl/bittree_model/e_acsl_bittree.h:340-386 | for tracked blocks that answer is the one of a scan over all blocks, if and only if the block of the address does not end at 2^64 |
| `BitTree.LastAddressMissed` | src/plugins/e-acsl/share/e-acsl/bittree_model/e_acsl_bittree.h:358-359 | the block of the very last address is tracked and not found |
| `BitTree.LookupBelow` | src/plugins/e-acsl/share/e-acsl/bittree_model/e_acsl_bittree.h:304-338 | the block with exactly this base address, none only if there is none |
| `BitTree.GetLeaf` | src/plugins/e-acsl/share/e-acsl/bittree_model/e_acsl_bittree.h:142-167 | the descent reaches the leaf of a stored block; one child agrees at every step |
| `BitTree.MostSimilar` | src/plugins/e-acsl/share/e-acsl/bittree_model/e_acsl_bittree.h:224-235 | an address with the prefix of a node has the longer common mask with the child on its side; any other has equal ones |
| `BitTree.RefreshKeeps` | src/plugins/e-acsl/share/e-acsl/bittree_model/e_acsl_bittree.h:295-297 | recomputing the mask of a node from its children changes nothing |
| `BitTree.JoinShaped` | src/plugins/e-acsl/share/e-acsl/bittree_model/e_acsl_bittree.h:258-297 | the new parent has the longest common mask, the smaller address on its left and the bits the shape asks for |
| `BitTree.JoinMaskExact` | src/plugins/e-acsl/share/e-acsl/bittree_model/e_acsl_bittree.h:288-292 | the new parent keeps the shape if and only if its mask is the longest common one |
| `BitTree.InsertExact` | src/plugins/e-acsl/share/e-acsl/bittree_model/e_acsl_bittree.h:242-302 | an insertion keeps the shape if and only if the base address is new |
| `BitTree.InsertBlocks` | src/plugins/e-acsl/share/e-acsl/bittree_model/e_acsl_bittree.h:242-302 | exactly the one block is added, whatever its address |
| `BitTree.RemoveShaped` | src/plugins/e-acsl/share/e-acsl/bittree_model/e_acsl_bittree.h:174-208 | a removal keeps the shape and the prefix |
| `BitTree.RemoveBlocks` | src/plugins/e-acsl/share/e-acsl/bittree_model/e_acsl_bittree.h:174-208 | exactly the one block is taken away |
| `BitTree.RemoveWithoutRefresh` | src/plugins/e-acsl/share/e-acsl/bittree_model/e_acsl_bittree.h:198-205 | a removal that recomputes no mask gives the same tree |
| `BitTree.RemoveUndoesInsert` | src/plugins/e-acsl/share/e-acsl/bittree_model/e_acsl_bittree.h:174-302 | removing a block just inserted gives back the same tree, all addresses and masks included |
| `BitTree.RemoveUndoesExact` | src/plugins/e-acsl/share/e-acsl/bittree_model/e_acsl_bittree.h:174-302 | it does so if and only if no other block has the base address |
| `BitTree.DuplicateRemoved` | src/plugins/e-acsl/share/e-acsl/bittree_model/e_acsl_bittree.h:142-208 | with two blocks of one base address, removing the new one leaves it in the place of the old one |
| `BitTree.BlockTree.constructor` | src/plugins/e-acsl/share/e-acsl/bittree_model/e_acsl_bittree.h:94 | no block |
| `BitTree.BlockTree.Insert` | src/plugins/e-acsl/share/e-acsl/bittree_model/e_acsl_bittree.h:242-302 | the contents grow by the block; the tree stays valid if and only if the base address is new |
| `BitTree.BlockTree.Remove` | src/plugins/e-acsl/share/e-acsl/bittree_model/e_acsl_bittree.h:174-208 | the contents lose the block and the tree stays valid |
| `BitTree.BlockTree.Lookup` | src/plugins/e-acsl/share/e-acsl/bittree_model/e_acsl_bittree.h:310-338 | the stored block with this base address, none only if there is none |
| `BitTree.BlockTree.Find` | src/plugins/e-acsl/share/e-acsl/bittree_model/e_acsl_bittree.h:343-386 | the answer of a scan over the stored blocks, if and only if that is not a block ending at 2^64; NULL is never found |
| `Bits.CheckBits64Meaning` | src/plugins/e-acsl/share/e-acsl/e_acsl_bits.h:103-111 | the macro holds if and only if the first k bits are set |
| `Bits.FirstMaskBits` | src/plugins/e-acsl/share/e-acsl/e_acsl_bits.h:88-93 | the mask of `setbits64` covers exactly the first k bits, that of `clearbits64` exactly the others |
| `Bits.LastMaskBits` | src/plugins/e-acsl/share/e-acsl/e_acsl_bits.h:127-134 | the masks of the right-hand macros cover exactly the last k bits and the others |
| `Bits.SetBits` | src/plugins/e-acsl/share/e-acsl/e_acsl_bits.h:136-147 | exactly the first `size` bits become ones, all other bits of the array stay |
| `Bits.ClearBits` | src/plugins/e-acsl/share/e-acsl/e_acsl_bits.h:149-156 | exactly the first `size` bits become zeros, all other bits stay |
| `Bits.CheckBits` | src/plugins/e-acsl/share/e-acsl/e_acsl_bits.h:158-167 | 1 if and only if the first `size` bits are all set, 0 otherwise |
| `Bits.SetBitsRight` | src/plugins/e-acsl/share/e-acsl/e_acsl_bits.h:169-180 | exactly the last `size` bits before ptr become ones, all other bits stay |
| `Bits.ClearBitsRight` | src/plugins/e-acsl/share/e-acsl/e_acsl_bits.h:182-189 | exactly the last `size` bits before ptr become zeros, all other bits stay |
| `Bits.ClearUndoesSet` | src/plugins/e-acsl/share/e-acsl/e_acsl_bits.h:136-156 | clearing a run that has just been set restores every word, if the run was clear before |
| `FloatOrder.KeyValue` | src/libraries/utils/c_bindings.c:221-222 | the shifts and exclusive or map a pattern to its sign-magnitude number, negative ones shifted below -0 |
| `FloatOrder.TotalOrder` | src/libraries/utils/c_bindings.c:213-225 | 0 for identical patterns only, antisymmetric, transitive |
| `FloatOrder.AgreesWithValues` | src/libraries/utils/c_bindings.c:213-225 | on numbers, infinities included, the order of the exact IEEE 754 values, with -0 below +0 |
| `FloatOrder.ScaledMeaning` | src/libraries/utils/c_bindings.c:213-225 | the values compared are binary64: a magnitude below 2^53 is its own multiple of 2^-1074, and each step of the exponent from there on doubles it |
| `FloatOrder.DecodeMeaning` | src/libraries/utils/c_bindings.c:213-225 | signs, infinities and NaNs of the patterns |
| `FloatOrder.OrdersNaNs` | src/libraries/utils/c_bindings.c:213-225 | negative NaNs below all numbers, positive ones above, ordered by kind and payload as section 5.10 of IEEE 754-2008 asks |
| `FloatOrder.NegativeIsBelowZero` | src/libraries/utils/c_bindings.c:227-232 | the sign test is 1 exactly for the patterns the order puts below +0 |
| `GetLine.Fill` | share/libc/stdio.c:61-74 | the inner loop ends the line within the n bytes of the buffer exactly when they are enough, and otherwise leaves them full |
| `GetLine.Grow` | share/libc/stdio.c:75-89 | one more byte with the content kept; refused exactly at SSIZE_MAX or without memory for it |
| `GetLine.ReadGrowing` | share/libc/stdio.c:60-90 | the outer loop ends, with the result, unread bytes and end-of-file mark of the reference step, for every memory |
| `GetLine.CallMeaning` | share/libc/stdio.c:60-92 | in numbers: a line whose bytes and two more fit the buffer, or both the memory and SSIZE_MAX, is returned whole, ended by byte 10, byte 255 or the end of the file; otherwise the call returns -1 and exactly the bytes of the largest buffer are lost |
| `GetLine.ReadLine` | share/libc/stdio.c:46-92 | for every buffer and amount of memory: a write through NULL exactly when the first allocation fails and a byte is stored; else result, unread bytes and end-of-file mark are those of the reference step, a line is NUL-terminated inside its buffer, and the growth loop ends |
| `GetLine.GetLine` | share/libc/stdio.c:40-93 | -1 with nothing changed for NULL arguments; in numbers, when a call writes through NULL, when it returns a line whole and when it returns -1, with the bytes in the buffer and the bytes left |
| `GetLine.ReadAll` | share/libc/stdio.c:40-93 | calls up to the first -1 return the lines of the reference run and end; the lines make up the stream if and only if it is empty, or has no byte 255 and no line that with two bytes more exceeds both the starting buffer and the smaller of memory and SSIZE_MAX; a write through NULL happens in the first call or never |
| `GetLine.RunExact` | share/libc/stdio.c:40-93 | the lines concatenated are a non-empty stream if and only if it has no byte 0xFF and no line too long for the memory there is; always for an empty one |
| `GetLine.RunMeaning` | share/libc/stdio.c:40-93 | that condition in numbers, for the starting buffer, the memory and SSIZE_MAX |
| `GetLine.FoldedByteLost` | share/libc/stdio.c:62-68 | a stream of three bytes that is not given back |
| `GetLine.PiecesShape` | share/libc/stdio.c:60-74 | every line is non-empty with a newline at most at its end; without byte 0xFF all but the last end in one |
| `Glob.GlobT.Glob` | share/libc/glob.c:28-87 | each status exactly in its case; the list becomes reserved NULLs, earlier entries, new entries, NULL, in a fresh array of exactly that size |
| `Glob.ListMeaning` | share/libc/glob.c:44-78 | the length and every entry of that list: the pattern itself when nothing was found, else as many results as were found |
| `Glob.AllNewConcat` | share/libc/glob.c:28-87 | the entries a run adds are those of its parts, in order |
| `Glob.AllNewOne` | share/libc/glob.c:44-78 | one call adds the pattern, the results found, or nothing |
| `Glob.AppendRun` | share/libc/glob.c:28-87 | over any run of appending calls all earlier entries stay in order, while the count holds only the latest number |
| `Glob.GlobRun` | share/libc/glob.c:28-87 | the same from the first call on |
| `Glob.OffsetsMustAgree` | share/libc/glob.c:35-41 | an appending call with other reserved slots keeps the earlier entries if and only if there were none |
| `Atoi.Atoi` | share/libc/stdlib.c:39-63 | for every string the denoted number if it lies from -2147483648 to 2147483647, and overflow exactly otherwise, with no read past the terminator |
| `Atoi.Accumulate` | share/libc/stdlib.c:58-61 | the negated value of the digits if it is at least INT_MIN, every half-step in [INT_MIN, 0], and overflow exactly otherwise |
| `Atoi.SkipToDigits` | share/libc/stdlib.c:45-57 | stops after white space and at most one sign, and reports a minus |
| `Atoi.DenotedAt` | share/libc/stdlib.c:39-63 | in character codes: white space, at most one sign and digits up to a non-digit denote the signed value, 0 without digits |
| `Atoi.ValueAppend` | share/libc/stdlib.c:58-61 | a further digit makes the value ten times as large plus the digit |
| `Atoi.ValuePlace` | share/libc/stdlib.c:58-61 | place value: the first digit counts times the power of ten of the digits behind it, for every digit string |
| `Atoi.LeadingZeros` | share/libc/stdlib.c:58-61 | leading zeros change nothing |
| `Atoi.DigitsOfValue` | share/libc/stdlib.c:58-61 | every digit string is zeros followed by the decimal digits of its value |
| `Atoi.ParsesPadded` | share/libc/stdlib.c:39-63 | white space, a sign, any number of zeros and the decimal digits of k, before anything but a digit, denote k or -k |
| `Atoi.Classes` | share/libc/ctype.c:30-61 | isspace and isdigit in character codes |
| `Atoi.RoundTrip` | share/libc/stdlib.c:39-63 | parsing the decimal print of any int gives it back, INT_MIN included |
| `Calloc.NoOverflowExact` | share/libc/stdlib.c:67-71 | for every word width the divide-back test passes if and only if the exact product fits |
| `Calloc.Calloc` | share/libc/stdlib.c:65-75 | fails exactly on overflow or without memory, else all nmemb*size bytes are zero |
| `Calloc.MemSet` | share/libc/string.c:118-125 | exactly the n bytes take the value, reduced to a byte |
| `Environment.RunInvariant` | share/libc/stdlib.c:77-183 | after any run of calls and choices every slot is NULL, inside the environment strings or a string given to `putenv`, and the last byte of the strings is 0 |
| `Environment.GetEnvSafe` | share/libc/stdlib.c:100-110 | after any run `getenv`, with the initialisation it performs, gives NULL or a terminated string, while callers keep theirs terminated |
| `Environment.FirstGetEnv` | share/libc/stdlib.c:100-110 | a first `getenv` that hits a slot returns a string of the environment |
| `Environment.LastWriteVisible` | share/libc/stdlib.c:100-183 | over any run: a `getenv` that hits a slot returns the string given to `putenv`, the string chosen by `setenv`, or NULL after `unsetenv`, whichever wrote the slot last |
| `Environment.FirstPickVisible` | share/libc/stdlib.c:83-110 | over any run: a slot that no call has written still holds the string chosen at the first call |
| `Environment.Undisturbed` | share/libc/stdlib.c:83-183 | a slot that later calls do not write keeps its pointer; nothing is initialised twice |
| `Environment.StringsAfter` | share/libc/stdlib.c:83-163 | the strings are made unknown by the first call and by `setenv`, up to a last zero byte, and change in no other way |
| `Environment.OnlyRefused` | share/libc/stdlib.c:83-183 | the environment is initialised exactly once some call has not refused its name |
| `Environment.OneSlotChanges` | share/libc/stdlib.c:100-183 | in an initialised environment a call changes at most one slot, and only `setenv` the strings |
| `Environment.PutEnvReports` | share/libc/stdlib.c:119-132 | for a string that is not in the environment, a result of 0 means it has entered if and only if the storing branch is taken and a full environment does not draw 0 |
| `Environment.PutEnvForgets` | share/libc/stdlib.c:123-132 | the branch for a name that is found returns 0 and stores nothing |
| `Environment.PutEnvFullButZero` | share/libc/stdlib.c:125-128 | a full environment can return 0, with nothing stored |
| `Environment.CheckName` | share/libc/stdlib.c:137-145 | a name is refused exactly when it is empty or holds '=' |
| `Environment.Interval` | share/libc/__fc_builtin.c:57-67 | the chosen value lies in the interval, and every value of it can be chosen |
| `Environment.Environ.constructor` | share/libc/stdlib.c:77-81 | static storage, all zero |
| `Environment.Environ.InitEnv` | share/libc/stdlib.c:83-93 | the first call fills slots and strings, later ones change nothing |
| `Environment.Environ.GetEnv` | share/libc/stdlib.c:100-110 | the state of the reference step; the pointer in the slot that is hit, or NULL |
| `Environment.Environ.PutEnv` | share/libc/stdlib.c:112-133 | the state and code of the reference step in each of its three cases |
| `Environment.Environ.SetEnv` | share/libc/stdlib.c:135-163 | the state and code of the reference step, nothing touched for a refused name |
| `Environment.Environ.UnsetEnv` | share/libc/stdlib.c:165-183 | the state and code of the reference step, nothing touched for a refused name |

## Left out

- GetLine.GetLine: `errno` is not modelled, `fgetc` never sets the error mark during a call, and a call ends at the write through NULL. lineptr and n are one object, so they are NULL together.
- GetLine.GetLine: memory is a limit on the size of the buffer; the model does not cover allocators that fail at some sizes and succeed at larger ones.
- Glob.GlobT.Glob: the arguments that `errfunc` receives and NULL patterns are not modelled; an appending call requires a terminated list, since the code reads past the array without one.
- Environment.Environ.GetEnv: names and strings of callers live in a separate memory that the environment does not write; `overwrite` is not read by the code.
- Guards.BuiltinMemCpy: the block table follows the bittree model of E-ACSL; the shadow memory of the segment model is not modelled.
- BitTree.BlockTree.Insert: the nodes are values; parent pointers, the update of nodes in place and `malloc`/`free` of nodes are not captured. The descent of `bt_most_similar_node` is the recursion of `BitTree.Inserted`, and a mask is kept as the number of low bits it drops. Only the 64-bit tables are modelled.
- BitTree.BlockTree.Remove: a block that is not stored is outside the contract of `bt_remove`.
- Guards.ValidateString: the text of the abort messages is reduced to its kind.
- Bits.SetBits: words are numbers with bitwise operators defined bit by bit; the byte order inside a word is not modelled. Word size/64 must exist even when size is a multiple of 64, because the code reads and writes it.
- StringCopy.MemCpy: reads outside the arguments are excluded by array bounds, not by a set of readable addresses, for all routines that write.
- `strncat`, `strdup`, `strndup`, `strerror`, `strsignal` and the wrappers `builtin_strncpy`, `builtin_strncmp`, `builtin_strncat`, `builtin_memcmp`, `builtin_memset`, `builtin_memmove`, `builtin_strlen`, `builtin_strcmp`: they repeat the patterns proved here.
- `setbits64_skip`, `checkbits64_skip` and the single-bit macros of `e_acsl_bits.h`: one-word expressions.
- Wide characters (`wchar.c`, `valid_nwstring` and the wide-character axioms): the same loops over a wider element.
- `math.c`, `netdb.c`, `time.c`, `locale.c`, `fenv.c`, `assert.c`, `posix_memalign`, `abs`, `globfree` and the rounding-mode bindings: stubs or single steps with little to prove.
- `single_precision_of_string`: rests on `strtof`, which is not part of this model.
- The OCaml plug-ins, the analysis scripts and the GMP prototypes are not modelled.
