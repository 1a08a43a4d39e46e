# mu_string in Dafny

A model of `mu_string`, a small C library of non-owning string views. A
read-only view (`mu_string_t`) is a pointer and a length. A mutable view
(`mu_string_mut_t`) is a writable buffer and its capacity. The library
builds views from C strings and buffers, and it queries, compares,
searches, slices, trims and splits views without copying anything. Only
copy and append write bytes, into a caller-owned buffer.

Three sentinel views carry results that are not ordinary text:

- `MU_STRING_EMPTY` is the `""` literal with length 0.
- `MU_STRING_NOT_FOUND` is `{NULL, 0}`.
- `MU_STRING_INVALID` is `{NULL, SIZE_MAX}`.

A view is valid when its pointer is non-NULL or its length is zero.

## How the model is built

- **Memory.** Addresses are abstract. A `Ptr` is `Null`, `Literal` (the
  address of the `""` literal behind `MU_STRING_EMPTY`) or `At(off)`, an
  offset into one byte memory `mem: seq<bv8>`. Every read operation
  receives that memory as a parameter.
  - `WellFormed(mem, v)` is the caller's side of the contract: a view lies
    inside the memory.
  - `Bytes(mem, v)` is the text a valid view refers to.
  - Pointer arithmetic `p + k` is `Advance(p, k)`.
- **Integer types.** `size_t` is a natural number up to `SIZE_MAX` of a
  64-bit target. Slice indices are 32-bit `int`.
- **Predicates.** A `mu_string_pred_t` together with its `void *arg` is a
  Dafny function `bv8 -> bool`. `Option` adds the NULL predicate.
- **Loops.** Every function whose C body is a loop is a `method` with the
  same loop. The loop is proved against a specification function:
  - `FirstWhere` and `LastWhere` for the scans;
  - `FirstOccurrence` for the substring search;
  - `LTrimmed`, `RTrimmed` and `Trimmed` for the trims;
  - `Split…Result` for the splits.
  Lemmas then state what those functions mean for the caller.
- **The `after` out-parameter of the splits.** It is a nullable `ViewCell`
  object, so `null` is the NULL pointer. The split methods modify it.
- **Copy and append.** They write into an `array<bv8>` that stands for the
  destination storage. A mutable view's pointer is an offset into it.
- **The C library.** `strlen`, `memcmp` and `memcpy` are modelled in module
  `CLib`, by what mu_string observes of them.

Where the header's documentation and the code disagree, the model follows
the code:

- **split_at_char when the delimiter is absent.** The header says the
  function returns `MU_STRING_NOT_FOUND`. The code returns the whole of
  `s`, and only `*after` is `MU_STRING_NOT_FOUND`.
- **split_by_not_pred when every byte matches.** The header says both parts
  are `MU_STRING_NOT_FOUND`. The code goes through
  `mu_string_split_handle_result`, which returns the whole of `s` and sets
  `*after` to `{s.buf + s.len, 0}`.
- **append when the segment is used up.** The header says it returns
  `MU_STRING_MUT_EMPTY`. The code returns `{buf + n, 0}`, whose pointer is
  not NULL (see `MuStringMutate.AppendConsumesSegment`).
- **copy with nothing to copy.** The header (inc/mu_string.h:547-548) says
  copy returns `MU_STRING_EMPTY` when `dst.len` is 0 or the source is
  empty. The code (src/mu_string.c:527) returns `{dst.buf, 0}` (see
  `MuStringMutate.CopyNothing`).
- **ltrim, rtrim and trim on an empty view.** The header
  (inc/mu_string.h:407-408, 423-424, 439-440) says they return
  `MU_STRING_EMPTY`. The code (src/mu_string.c:354, 372, 390) returns `s`
  itself, so `MU_STRING_NOT_FOUND` stays `MU_STRING_NOT_FOUND` (see
  `MuStringTrim.TrimPassThrough`).

The library's own tests (test/test_mu_string.c:722, 816, 896) expect each
split to return `MU_STRING_NOT_FOUND` when there is no split point. The
code returns all of `s`, which mu_string_eq does not equate with
`MU_STRING_NOT_FOUND` when `s` is non-empty, so those assertions fail
against the code. The `*after` assertions hold, because a valid
zero-length view equals `MU_STRING_NOT_FOUND` under mu_string_eq (see
`MuStringSplit.SplitNoMatchAgainstNotFound`).

## Model

| member | source | states |
|---|---|---|
| MuStringTypes.ValidityCharacterised | src/mu_string.c:79-83 | `IsValid`, the model of mu_string_is_valid, holds for a view exactly when it is not a NULL pointer with a non-zero length. Every invalid view has a NULL pointer. |
| MuStringTypes.SentinelShapes | inc/mu_string.h:99-124 | EMPTY is the non-NULL literal with length 0. NOT_FOUND is {NULL, 0}. INVALID is {NULL, SIZE_MAX}. MUT_EMPTY is {NULL, 0}. The three read-only sentinels are pairwise distinct. EMPTY and NOT_FOUND are valid; INVALID is not. |
| MuStringTypes.SubViewBytes | src/mu_string.c:229-231 | The view `{s.buf + i, j - i}` of a well-formed valid view is itself well-formed and valid. It reads bytes [i, j) of `s`. |
| CLib.CStrLen | src/mu_string.c:86-91 | strlen stops at the first NUL byte: the byte at the returned distance is 0, and no byte before it is. |
| CLib.MemCmp | src/mu_string.c:160 | memcmp's sign is zero exactly when the first `n` bytes agree. |
| CLib.MemCmpSwap | src/mu_string.c:175-184 | Swapping memcmp's arguments negates its sign. |
| CLib.MemCmpNegative | src/mu_string.c:175-184 | memcmp is negative exactly when, at the first difference within `n` bytes, `x` has the smaller unsigned byte. |
| CLib.Overwrite | src/mu_string.c:522-524 | The written range holds the new bytes. Every byte outside it is unchanged, and the length is kept. |
| CLib.MemCpy | src/mu_string.c:522-524 | memcpy leaves the array equal to the old contents overwritten at the offset by the source bytes. |
| CLib.OverwriteAdjacent | src/mu_string.c:547-552 | Writing `x` and then `y` immediately after it is the same as writing `x + y`. |
| MuStringConstruct.FromCStr | src/mu_string.c:86-91 | A NULL string gives EMPTY. Otherwise the view starts at `cstr`, contains no NUL byte and is followed by one. It is well-formed and valid. |
| MuStringConstruct.FromBuf | src/mu_string.c:93-102 | NULL with a length gives INVALID. NULL without one gives EMPTY. Any other pair is kept. Validity is preserved, and the result's pointer is NULL only for INVALID. |
| MuStringConstruct.MutFromBuf | src/mu_string.c:104-108 | The mutable view reports exactly the given buffer and capacity through mut_buf and mut_len, including a NULL buffer. |
| MuStringConstruct.Len | src/mu_string.c:111-116 | The length of a valid view; SIZE_MAX for an invalid one. |
| MuStringConstruct.IsEmpty | src/mu_string.c:118-123 | True exactly for valid views of length 0. Such views have Len 0. |
| MuStringConstruct.Buf | src/mu_string.c:126-134 | NULL exactly for invalid or empty views. Otherwise the view's pointer. |
| MuStringConstruct.FromBufAccessors | src/mu_string.c:93-123 | Len, IsEmpty and Buf of a from_buf result, and of the sentinels: INVALID has length SIZE_MAX and is not empty; EMPTY and NOT_FOUND are empty. |
| MuStringCompare.Eq | src/mu_string.c:145-161 | Two invalid views are equal. An invalid view equals no valid one. Two valid views are equal exactly when their bytes are equal. |
| MuStringCompare.EqEquivalence | src/mu_string.c:145-161 | Eq is reflexive, symmetric and transitive. EMPTY equals NOT_FOUND. INVALID equals a view exactly when that view is invalid. |
| MuStringCompare.Cmp | src/mu_string.c:163-187 | Two invalid views compare equal. INVALID sorts below every valid view. |
| MuStringCompare.CmpLexicographic | src/mu_string.c:163-187 | Between valid views, Cmp < 0, == 0 and > 0 exactly when the bytes are lexicographically smaller, equal and greater. The lexicographic order is defined independently of memcmp. |
| MuStringCompare.CmpAgreesWithEq | src/mu_string.c:145-187 | Cmp is antisymmetric in sign. It is zero exactly when Eq holds. |
| MuStringCompare.LexLessAsymmetric | src/mu_string.c:175-186 | The byte order Cmp follows is a strict order: it never holds in both directions or between equal strings. |
| MuStringCompare.StartsWith | src/mu_string.c:190-205 | True exactly when both views are valid, the prefix is no longer than `s`, and the first bytes of `s` are the prefix's bytes. |
| MuStringCompare.EndsWith | src/mu_string.c:207-221 | True exactly when both views are valid, the suffix is no longer than `s`, and the last bytes of `s` are the suffix's bytes. |
| MuStringCompare.TailBytes | src/mu_string.c:220 | `{s.buf + s.len - n, n}` reads the last `n` bytes of `s`. |
| MuStringCompare.AffixBasics | src/mu_string.c:190-221 | Every valid view starts and ends with itself and with EMPTY. Nothing starts or ends with INVALID, and INVALID starts or ends with nothing. |
| MuStringSearch.FirstWhere | src/mu_string.c:227-233 | The first index satisfying the predicate, or the length when there is none. |
| MuStringSearch.LastWhere | src/mu_string.c:241-246 | The last index satisfying the predicate, or -1 when there is none. |
| MuStringSearch.FirstOccurrence | src/mu_string.c:308-313 | The first position where the needle occurs, or the haystack's length. No earlier position holds it. |
| MuStringSearch.FindChar | src/mu_string.c:224-235 | INVALID for an invalid view. Otherwise the suffix from the first byte equal to `c`, or EMPTY. |
| MuStringSearch.RFindChar | src/mu_string.c:237-249 | INVALID for an invalid view. Otherwise the suffix from the last byte equal to `c`, or EMPTY. |
| MuStringSearch.FindPred | src/mu_string.c:251-262 | INVALID for an invalid view. EMPTY for a NULL predicate. Otherwise the suffix from the first byte satisfying the predicate, or EMPTY. |
| MuStringSearch.RFindPred | src/mu_string.c:264-276 | INVALID for an invalid view. EMPTY for a NULL predicate. Otherwise the suffix from the last byte satisfying the predicate, or EMPTY. |
| MuStringSearch.FindFirstNotPred | src/mu_string.c:278-300 | INVALID for an invalid view. EMPTY for an empty one. `s` itself for a NULL predicate. Otherwise the suffix from the first byte failing the predicate, or EMPTY. |
| MuStringSearch.FindStr | src/mu_string.c:303-317 | INVALID when either view is invalid. The haystack itself for an empty needle. Otherwise the suffix from the needle's first occurrence, or EMPTY. |
| MuStringSearch.FoundAtBytes | src/mu_string.c:229-231 | A search result is EMPTY exactly when nothing was found. Otherwise it is well-formed and valid, starts at the match and reads the input's bytes from there on. |
| MuStringSearch.WindowBytes | src/mu_string.c:309 | The `n` bytes at `haystack.buf + i` are bytes [i, i + n) of the haystack. |
| MuStringSearch.ForwardSearchMeaning | src/mu_string.c:224-262 | A forward search's result is EMPTY exactly when no byte matches. Otherwise it is a non-empty suffix of the input that starts with a matching byte, and no byte before it matches. |
| MuStringSearch.BackwardSearchMeaning | src/mu_string.c:237-276 | A backward search's result is EMPTY exactly when no byte matches. Otherwise it is a non-empty suffix that starts with a matching byte, and no later byte matches. |
| MuStringSearch.FindStrMeaning | src/mu_string.c:303-317 | find_str's result is EMPTY exactly when the needle occurs nowhere. Otherwise it is a suffix of the haystack that begins with the needle, and no earlier position holds the needle. |
| MuStringSlice.Slice | src/mu_string.c:320-349 | INVALID for an invalid view. EMPTY for an empty view. Otherwise each index is counted from the end when negative and clamped into [0, len]; the result is the range between the two positions, or EMPTY when that range is empty. |
| MuStringSlice.SliceIsSubRange | src/mu_string.c:320-349 | A slice of a valid view is a well-formed, valid range of it, no longer than it, that starts at the start index's position and reads the matching bytes. |
| MuStringSlice.SliceWhole | src/mu_string.c:320-349 | slice(s, 0, len) and slice(s, 0, END) give back a non-empty `s`. slice(s, 0, 0) is EMPTY. |
| MuStringSlice.SliceToEnd | inc/mu_string.h:127-133 | END as the end index acts as the length. |
| MuStringSlice.SliceFromEnd | src/mu_string.c:326-330 | slice(s, -k, END) is the last `k` bytes. slice(s, 0, -k) is everything but them. |
| MuStringSlice.SliceClamps | src/mu_string.c:326-342 | A start index at or below -len acts as 0. An end index at or above len acts as len. |
| MuStringTrim.LTrim | src/mu_string.c:352-368 | The loop computes LTrimmed. |
| MuStringTrim.RTrim | src/mu_string.c:370-386 | The loop computes RTrimmed. |
| MuStringTrim.Trim | src/mu_string.c:388-409 | The two loops compute Trimmed. |
| MuStringTrim.LTrimmedMeaning | src/mu_string.c:352-368 | ltrim keeps a suffix of `s`. Every dropped byte satisfies the predicate, and the first kept byte does not. |
| MuStringTrim.RTrimmedMeaning | src/mu_string.c:370-386 | rtrim keeps a prefix of `s` starting at the same pointer. Every dropped byte satisfies the predicate, and the last kept byte does not. |
| MuStringTrim.TrimmedMeaning | src/mu_string.c:388-409 | trim keeps a range of `s`. The result is empty exactly when every byte satisfies the predicate. Otherwise every byte dropped at either end satisfies it, and the first and last bytes kept do not. |
| MuStringTrim.TrimmedComposes | src/mu_string.c:388-409 | trim equals ltrim after rtrim, and it equals rtrim after ltrim. |
| MuStringTrim.LTrimIdempotent | src/mu_string.c:352-368 | A second ltrim with the same predicate changes nothing. |
| MuStringTrim.RTrimIdempotent | src/mu_string.c:370-386 | A second rtrim with the same predicate changes nothing. |
| MuStringTrim.TrimIdempotent | src/mu_string.c:388-409 | A second trim with the same predicate changes nothing. |
| MuStringTrim.TrimPassThrough | src/mu_string.c:353-354 | A NULL predicate or an empty view passes through all three trims unchanged. An invalid view gives INVALID. NOT_FOUND stays NOT_FOUND rather than becoming EMPTY. |
| MuStringSplit.SplitHandleResult | src/mu_string.c:559-578 | An index inside `s` splits it into `{s.buf, k}` and `{s.buf + k, len - k}`. Otherwise the result is all of `s`, and `*after` is the zero-length view at its end. `*after` is written only when given. |
| MuStringSplit.SplitAtChar | src/mu_string.c:412-449 | The loop and the write to the after-cell compute SplitAtCharResult. |
| MuStringSplit.SplitByPred | src/mu_string.c:451-486 | The loop and the write to the after-cell compute SplitByPredResult. |
| MuStringSplit.SplitByNotPred | src/mu_string.c:488-508 | The loop and the write to the after-cell compute SplitByNotPredResult. |
| MuStringSplit.SplitPairReassembles | src/mu_string.c:559-578 | The two parts are well-formed and valid. They are adjacent in memory, and their bytes concatenate back to the bytes of `s`. |
| MuStringSplit.SplitFirstWhereMeaning | src/mu_string.c:464-484 | Before the split point no byte matches. The part after starts with a matching byte, and it is empty exactly when nothing matches. |
| MuStringSplit.SplitAtCharMeaning | src/mu_string.c:412-449 | The part before never contains the delimiter. `*after` is NOT_FOUND exactly when the delimiter is absent, in which case `s` comes back whole. Otherwise `*after` starts with the delimiter, directly follows the part before, and the two reassemble `s`. |
| MuStringSplit.SplitByPredMeaning | src/mu_string.c:451-486 | The part before is the longest prefix without a matching byte. The part after is the adjacent rest, starting with a matching byte when non-empty. |
| MuStringSplit.SplitByNotPredMeaning | src/mu_string.c:488-508 | The part before is the longest prefix of matching bytes. The part after is the adjacent rest, starting with a non-matching byte when non-empty. |
| MuStringSplit.SplitNoMatch | src/mu_string.c:474-481 | With no split point, split_by_pred and split_by_not_pred return all of `s`, with the zero-length view at its end as `*after`. |
| MuStringSplit.SplitNoMatchAgainstNotFound | src/mu_string.c:441-481 | With no split point in a non-empty view, the returned part is not Eq to NOT_FOUND. The part stored in `*after` is Eq to NOT_FOUND, for all three splits. |
| MuStringSplit.SplitInvalid | src/mu_string.c:413-419 | An invalid view makes both parts INVALID in every split. A NULL predicate does the same for the predicate splits. A valid view never gives INVALID from split_at_char. |
| MuStringMutate.CopyCount | src/mu_string.c:519 | The number of bytes moved is at most the source length and at most the capacity, and it equals one of them. |
| MuStringMutate.Copy | src/mu_string.c:510-528 | A NULL destination or an invalid source gives INVALID and writes nothing. Otherwise the storage and the result are those of CopyBytes. |
| MuStringMutate.Append | src/mu_string.c:530-553 | A NULL segment or an invalid source returns the segment and writes nothing. An empty source also returns the segment unchanged and writes nothing. Otherwise the storage and the remaining space are those of AppendBytes. |
| MuStringMutate.CopyMeaning | src/mu_string.c:510-528 | copy's result lies at the destination and reads the copied prefix of the source. The prefix is cut short only when the destination is full, and nothing outside the copied range changes. |
| MuStringMutate.AppendMeaning | src/mu_string.c:530-553 | append writes a prefix of the source at the segment's start, cut short only when the segment fills up. It returns the space right after the written bytes, and nothing else in the storage changes. |
| MuStringMutate.AppendConcat | inc/mu_string.h:554-572 | The cursor pattern: appending `x` and then `y` to the returned space has the same effect as appending `x + y` once, even when the segment fills part-way. |
| MuStringMutate.CopyAgreesWithAppend | src/mu_string.c:510-553 | copy and append write the same bytes. copy's length plus append's remaining space is the capacity, and the remaining space starts where the copy ends. |
| MuStringMutate.CopyNothing | src/mu_string.c:519-527 | With an empty source or a zero-capacity destination, copy writes nothing. It returns `{dst.buf, 0}`, which is not EMPTY. |
| MuStringMutate.AppendConsumesSegment | src/mu_string.c:544-552 | A source that fills the segment leaves the zero-length view at the segment's end, not MU_STRING_MUT_EMPTY. |

## Left out

- Pointer identity beyond the model's addresses. Two views into
  different memories, or overlapping source and destination buffers in
  copy and append, are not modelled. The destination storage is separate
  from the read-only memory.
- Views that reach past their buffer, which is undefined behaviour in C.
  The callers' `WellFormed` precondition excludes them.
- The `void *arg` of the predicates. It is folded into the predicate
  function.
- mu_string_mut_buf and mu_string_mut_len carry no contract of their own.
  They return the fields, and `MuStringConstruct.MutFromBuf` states them.
- MuStringCompare.Cmp: returns only the sign of memcmp's result (-1, 0 or
  1). The C function passes on memcmp's own non-zero value, whose
  magnitude the C standard leaves open.
- MuStringSearch.RFindChar: requires a valid view's length to fit in a C
  `int`, because the C loop starts at `(int)s.len - 1`. For longer views
  that conversion is implementation-defined.
- MuStringSearch.RFindPred: requires the length to fit in a C `int`, for
  the same reason as RFindChar.
- MuStringTrim.RTrim: requires the length to fit in a C `int`, for the
  same reason as RFindChar.
- MuStringTrim.Trim: requires the length to fit in a C `int`, for the same
  reason as RFindChar.
- MuStringSlice.Slice: the index arithmetic is done on unbounded integers.
  C's `long long` cannot overflow for these operands when the length is
  below 2^63.
- MuStringMutate.Copy: a mutable view never points at the `""` literal
  (`MutWellFormed` excludes it).
- MuStringMutate.Append: a mutable view never points at the `""` literal,
  for the same reason as Copy.
