# Growable handle array (array.c) in Dafny

This project models the growable array of opaque element handles from
libidevices-support. Its state record is `array_header_t`, which holds
`capacity`, `count` and the `data` buffer of pointers. The model covers:

- the container mechanics: capacity rounding, new, copy, add, append, join,
  and the count, empty, full and element queries;
- the five linear searches;
- the string layer: split with `strtok_r`, and appending duplicated strings.

How the C maps onto Dafny:

- `array_header_t` becomes the class `DynArrays.DynArray<T>`, with fields
  `capacity`, `count` and `data: array<Option<T>>`.
- A slot is `Some(handle)`, or `None` where the C buffer holds NULL.
- The invariant `Valid()` says that `capacity` is a power of two of at least 1,
  and that `count <= capacity == data.Length`. Every constructor and mutator
  keeps it.
- `Contents()` is the occupied prefix `data[..count]`.
- `realloc` is a fresh buffer that keeps the old slots (`Reallocate`). Its
  contract says nothing about the added slots, whose contents section 7.22.3.5
  of ISO C11 leaves indeterminate. `memcpy` of handles is `CopyHandles`.
- `memory_align_ceiling` keeps its shifting loop (`Align.AlignCeiling`). The
  loop is proved equal to the recursive power-of-two ceiling `Align.CeilPow2`.
- A string handle is its content (`seq<char>`, without the terminator). One
  `char` stands for one byte of the C string, and a modelled string holds no
  `'\0'`, since the first one ends a C string. So
  `strdup` yields an equal value, `strlen`/`memcmp` become length and equality,
  and `strstr` (section 7.24.5.7 of ISO C11) becomes `StringArrays.Strstr`.
- Repeated `strtok_r` calls (section 7.24.5.8 of ISO C11) become
  `Tokenizer.NextToken`, one call on the text that remains. `Tokenizer.Tokens`
  lists every token. `StringArrays.FromSplitString` drives `NextToken` in a
  loop of `DynArray.Add`, as the C drives `strtok_r`.
- The string operations require every occupied slot to hold a string
  (`AllStrings`), because `strlen`, `strstr` and `strdup` on NULL are undefined.

## Model

| member | source | states |
|---|---|---|
| Align.CeilPow2 | src/array.c:21-27 | the rounded size is a power of two, at least the size, 1 for sizes up to 1, and below twice the size otherwise |
| Align.PowersOfTwoSpaced | src/array.c:21-27 | two different powers of two differ by at least a factor of two |
| Align.CeilPow2IsLeast | src/array.c:21-27 | no power of two that holds n slots is smaller than the ceiling of n |
| Align.CeilPow2OfPowerOfTwo | src/array.c:21-27 | rounding a power of two returns it unchanged |
| Align.AlignStep | src/array.c:25 | one shift of the loop halves the remaining size and doubles the aligned part, and their combined ceiling stays the same |
| Align.AlignCeiling | src/array.c:21-27 | memory_align_ceiling's shifting loop returns 1 for sizes up to 1 and otherwise the least power of two that is at least the size |
| DynArrays.CopyHandles | src/array.c:70-73 | memcpy of n handles: the target range receives the source handles in order, and every other slot keeps its handle |
| DynArrays.Reallocate | src/array.c:84 | realloc gives fresh storage of the new size that keeps the old handles; the added slots are left unspecified |
| DynArrays.DynArray.New | src/array.c:29-36 | array_new gives an empty array whose capacity is the power-of-two ceiling of the request, with every slot NULL |
| DynArrays.DynArray.Copy | src/array.c:38-46 | array_copy gives the same capacity, the same count and the same handle in every slot, in its own fresh buffer |
| DynArrays.DynArray.Count | src/array.c:118-120 | array_count is the number of stored handles |
| DynArrays.DynArray.IsEmpty | src/array.c:136-138 | array_is_empty holds exactly when no handle is stored |
| DynArrays.DynArray.IsFull | src/array.c:132-134 | array_is_full holds exactly when the stored handles fill the whole buffer, which is when Add reallocates |
| DynArrays.DynArray.Element | src/array.c:140-146 | array_element with the intended bound: the handle at an occupied index, and NULL for every index from count on |
| DynArrays.DynArray.ElementAsWritten | src/array.c:140-146 | array_element as written: NULL beyond count and the handle below count; at index count it reads past the buffer exactly when the array is full |
| DynArrays.DynArray.Add | src/array.c:122-130 | array_add appends the handle after the existing ones and keeps the invariant; it doubles the capacity into fresh storage exactly when the array was full, and otherwise keeps the capacity and the buffer |
| DynArrays.GrownStep | src/array.c:123-126 | Grown(c, n), the capacity after adds from capacity c bring the count to n, stays the same for one more add while the count is below it and doubles when the count has reached it |
| DynArrays.GrownAfterAdd | src/array.c:123-126 | the capacity after one array_add, as Add's contract gives it, is the grown capacity of the new count |
| DynArrays.GrownPowerOfTwo | src/array.c:123-126 | growing a power-of-two capacity by doublings gives a power of two |
| DynArrays.DynArray.AppendElements | src/array.c:80-92 | array_append_elements makes the contents the old contents followed by toAdd's, and sets the capacity to the ceiling of the new count, which may be smaller than before; a distinct toAdd is left unchanged |
| DynArrays.DynArray.Join | src/array.c:66-78 | array_join gives a fresh array holding first's handles and then second's, with capacity equal to the ceiling of the combined count; neither input changes |
| DynArrays.DynArray.ContainsElement | src/array.c:148-156 | array_contains_element holds exactly when the handle is among the stored handles |
| DynArrays.DynArray.ContainsAnyElement | src/array.c:174-184 | array_contains_any_element holds exactly when the two arrays' stored handles share a handle |
| Tokenizer.ScanToken | src/array.c:55-59 | the scan of one token never grows the remaining text, and shortens any non-empty text |
| Tokenizer.NextToken | src/array.c:55-59 | each strtok_r call that yields a token strictly advances the saved position |
| Tokenizer.ScanTokenKeepsText | src/array.c:55-59 | the scanned token has no delimiter, and no non-delimiter is lost between the token and the rest |
| Tokenizer.NextTokenYieldsRun | src/array.c:55-59 | strtok_r returns NULL exactly when only delimiters remain; otherwise the token is non-empty and delimiter-free, and the text without delimiters is the token followed by the rest without delimiters |
| Tokenizer.StripDelimiters | src/array.c:55-59 | removing the delimiters from text made only of delimiters leaves nothing |
| Tokenizer.Tokens | src/array.c:55-60 | the tokens of the strtok_r loop, in order; there are never more tokens than characters. What the tokens are is stated by TokensCoverText and DelimiterSeparates |
| Tokenizer.TokensCoverText | src/array.c:55-60 | every token of the split is non-empty and delimiter-free, and the tokens together are the text with its delimiters removed |
| Tokenizer.ScanDelimiterFree | src/array.c:55-59 | a delimiter-free text is scanned whole |
| Tokenizer.DelimiterFreeIsOneToken | src/array.c:55-60 | a non-empty delimiter-free text is exactly one token |
| Tokenizer.OnlyDelimitersNoTokens | src/array.c:55-60 | a text made only of delimiters yields no token |
| Tokenizer.ScanStopsAtDelimiter | src/array.c:55-59 | the token scan stops at the first delimiter; text after it affects only the rest |
| Tokenizer.LeadingDelimiter | src/array.c:55-60 | a leading delimiter is skipped and changes no token |
| Tokenizer.DelimiterSeparates | src/array.c:55-60 | every delimiter separates: the tokens of a, a delimiter, then b are the tokens of a followed by those of b, so consecutive delimiters yield no empty token |
| Tokenizer.TwoWords | src/array.c:55-60 | two non-empty delimiter-free words around one delimiter are exactly those two tokens |
| Tokenizer.HelloWorldSplit | test/array_test.c:41 | "Hello,World" split on "," gives "Hello" and then "World" |
| StringArrays.InitialSplitCapacity | src/array.c:50 | the array_new(8) that starts a split has exactly 8 slots |
| StringArrays.FromSplitString | src/array.c:48-64 | array_from_split_string gives a fresh array whose buffer is its own fresh allocation: empty for NULL text, otherwise the strtok_r tokens of the text in order; its capacity is that of array_new(8) grown by one add per token |
| StringArrays.AppendDuplicatingStrings | src/array.c:94-98 | array_append_duplicating_strings with its loop bound read once: appends copies equal to the strings toAdd held on entry, in order, keeps its buffer or moves to a freshly allocated one, leaves the capacity that of the old capacity grown by one add per string, and leaves a distinct toAdd unchanged; a self-append duplicates each string once |
| StringArrays.AppendDuplicate | src/array.c:96 | one iteration: the string at the index of toAdd is appended to items, the capacity keeps to the grown capacity, and a distinct toAdd is unchanged |
| StringArrays.AddToken | src/array.c:58 | one iteration of the split: the token is appended after the stored slots, the buffer is kept or freshly allocated, and the capacity keeps to that of array_new(8) grown by one add per token |
| StringArrays.SelfAppendAsWritten | src/array.c:94-98 | array_append_duplicating_strings(a, a) as written, for any non-empty a: after any number of iterations the count has grown by that number and the loop condition still holds, so the loop never ends |
| StringArrays.ContainsString | include/array.h:171-181 | array_contains_string as documented: true exactly when some stored string equals the searched string |
| StringArrays.ContainsStringAsWritten | src/array.c:158-172 | array_contains_string as written: true exactly when some stored string has the searched string's length but different bytes |
| StringArrays.InvertedMatchCounterexample | src/array.c:166 | as written, ["One"] does not contain "One" and ["Two"] does, the reverse of the intended answers |
| StringArrays.ContainsAnyString | include/array.h:195-203 | array_contains_any_string built on the corrected search: true exactly when some string of the second array is stored in the first |
| StringArrays.ContainsAnyStringAsWritten | src/array.c:186-194 | array_contains_any_string as written, calling the inverted search: true exactly when, for some string of the second array, the first holds a string of its length with different bytes |
| StringArrays.InvertedAnyMatchCounterexample | src/array.c:188 | as written, ["Two"] contains one of ["One"] and ["One"] does not, the reverse of the intended answers |
| StringArrays.FindFrom | src/array.c:198 | the strstr search finds the first occurrence at or after the start offset, or reports that there is none |
| StringArrays.Strstr | src/array.c:198 | strstr returns the offset of the first occurrence of the needle, and NULL exactly when it occurs nowhere; StrstrFindsSubstrings ties it to the substring relation |
| StringArrays.StrstrFindsSubstrings | src/array.c:198 | strstr succeeds exactly when the needle is a contiguous part of the haystack |
| StringArrays.EmptyStringOccurs | src/array.c:198 | the empty string occurs in every string, so an empty stored string always matches |
| StringArrays.StringContainsAny | src/array.c:196-204 | array_string_contains_any holds exactly when some stored string occurs as a substring of the given string |
| ArrayScenarios.NewEmptyArray | test/array_test.c:5-9 | array_new(0) is empty |
| ArrayScenarios.AddingOneElement | test/array_test.c:11-17 | after one add, a new array has count 1 and is not empty |
| ArrayScenarios.CopyOfOneElement | test/array_test.c:19-26 | the copy of a one-element array is a different array with count 1 |
| ArrayScenarios.AddToCopy | test/array_test.c:32-40 | after an add to the copy, the copy holds 2 handles and the original still holds its 1 |
| ArrayScenarios.HelloWorldSlots | test/array_test.c:41 | splitting "Hello,World" on "," fills the slots "Hello" and "World" |
| ArrayScenarios.SplitHelloWorld | test/array_test.c:41-44 | array_from_split_string("Hello,World", ",") holds "Hello" then "World" and is not full |
| ArrayScenarios.AppendSplitTwice | test/array_test.c:68-69 | the strings of a fresh split of "Buckle,Shoe" duplicated onto a split of "Hello,World", twice over the same pair, leave the Hello/World slots followed by two copies of the Buckle/Shoe slots |
| ArrayScenarios.ElementAtCountOfFullArray | src/array.c:140-146 | after one add to array_new(0), array_element(1) as written reads past the buffer, while the intended element is NULL |

## Left out

- array_free and array_free_all (src/array.c:100-116) release memory, which a value model does not express. array_free_all skips NULL elements and would double-free handles stored twice.
- array_print_debug (src/array.c:206-229) only prints diagnostics, and does nothing in non-debug builds.
- Allocation failure is not modelled: the model assumes every calloc, malloc and realloc succeeds, as the C code does without checking.
- Align.AlignCeiling: does not model 64-bit size_t wrap-around. Sizes are unbounded naturals, so the ceiling of a size above 2^63 is not the C result (0).
- DynArrays.DynArray.Add: does not model the wrap-around of `capacity * 2` in size_t. Capacities are unbounded.
- Pointer identity of strings is not modelled. A string handle is its content, so a strdup'd copy equals the original. As a result, ContainsElement and ContainsAnyElement on string arrays compare contents where C compares pointers.
- strtok_r's saved-state pointer, and the private strdup/free of the text (src/array.c:53-61), are replaced by the pure tokenizer. The delimiter string is modelled as the set of its characters.
- StringArrays.AppendDuplicatingStrings: requires that two different arrays do not share a buffer, which C arrays made by these operations never do.
- Operations that read strings require every occupied slot to hold a string. The C dereferences every slot it reaches with strlen, strstr or strdup: all of them for strdup and for a search that finds nothing, and every slot up to the first hit for a search that succeeds. The model requires all of them.
- Strings are modelled as `seq<char>` with one `char` per byte. The contracts range over every `seq<char>`, but only those of byte-range characters without `'\0'` correspond to C strings; strlen, memcmp and strtok_r would stop at an embedded `'\0'`.
- DynArrays.Reallocate: the body fills the added slots with NULL, but the contract does not promise it, since realloc leaves them indeterminate. Slots from count on are therefore unspecified after Add doubles the buffer or AppendElements grows it.

## Findings

| source | as written | input that shows it | evidently intended | confidence | as-written member | corrected member |
|---|---|---|---|---|---|---|
| src/array.c:141 | `if (index > array->count) return NULL;` lets index == count through to `array->data[index]` | array_new(0) then one array_add: capacity 1, count 1; array_element(array, 1) reads slot 1 of a one-slot buffer | `index >= array->count` returns NULL | not executed | DynArrays.DynArray.ElementAsWritten | DynArrays.DynArray.Element |
| src/array.c:166 | `if (memcmp(...)) return true;` is true when the equal-length strings differ | array ["One"] searched for "One" gives false; array ["Two"] searched for "One" gives true | `memcmp(...) == 0` returns true | not executed | StringArrays.ContainsStringAsWritten | StringArrays.ContainsString |
| src/array.c:188 | array_contains_any_string calls the array_contains_string of line 166 and inherits its inverted test | array ["Two"] searched for any of ["One"] gives true; array ["One"] searched for any of ["One"] gives false | true exactly when some string of the second array is stored in the first | not executed | StringArrays.ContainsAnyStringAsWritten | StringArrays.ContainsAnyString |
| src/array.c:95 | `index < to_add->count` re-reads the count that each `array_add` into the same array raises | array_append_duplicating_strings(a, a) for any non-empty a: after k iterations the count is the old count plus k, still above k | the bound read once before the loop, so a self-append duplicates each string once | not executed | StringArrays.SelfAppendAsWritten | StringArrays.AppendDuplicatingStrings |
