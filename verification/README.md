# Verified model of noc

noc is a small C library for bare metal. This project models its five intricate parts in
Dafny and proves what they promise: the heap allocator, the word-at-a-time memory moves it
uses, the 64-by-32-bit division, the printf formatter with its inverse `atoi`, and the
random number generator.

The parts rest on each other as in the library. `realloc` moves data with the verified
`memmove` and `memcpy`, which work on an array of bytes; the formatter produces digits with
the verified division; `atoi` reads back what the formatter wrote through `snprintf`.

## How it is organised

- `Memory.dfy`, `BlockOps.dfy`: words and bytes; `memcpy`, `memmove`, `memset` on an
  `array` of bytes.
- `Ram.dfy`: that memory, together with a ghost map from word addresses to words. Two
  memories with the same words have the same bytes (`WordsGiveBytes`).
- `Layout.dfy`: what a heap is: a map of chunks that tile the address range, and the sorted
  list of the free ones. It shows that the list is canonical.
- `Image.dfy`, `Steps.dfy`: how headers and links in memory represent a layout, and what
  each group of stores of the source does to it.
- `Allocator.dfy`: the class `Heap`, with `struct malloc_state`, the program break and the
  memory; `malloc`, `free`, `realloc`, `mem_free`, one method per function and per branch of
  the source. `Client.dfy`: programs that run any sequence of operations on the heap.
  `Corners.dfy`: concrete runs that show the differences listed below.
  `Spelled.dfy`: the conditions in the contracts, in numbers.
- `Division.dfy`: `umoddiv32`.
- `Numbers.dfy`, `Text.dfy`, `Digits.dfy`, `Format.dfy`: numerals, and the meaning of a format string as a
  function. `Sinks.dfy`, `Formatter.dfy`, `Printf.dfy`: the formatter as a state machine
  over either sink, proved equal to that meaning. `Atoi.dfy`, `RoundTrip.dfy`: the parser,
  and when it undoes `%d`.
  `Directives.dfy`: what each directive sends, from the characters it is written with.
- `Random.dfy`: the generator.

The environment is `sbrk` as include/unistd.h describes it: it may refuse any call, and
otherwise returns the previous break. Which calls it refuses is an arbitrary function of
their number (`Platform`), so what the allocator does can be stated as an if-and-only-if
on it. The allocator is its only user. The console behind `putnstr` takes a text, with a
positive answer, or refuses it, with a negative one; which calls it refuses is again an
arbitrary function of their number.

## Where the code and its documentation differ

- A failing `realloc` should leave the old object alone (src/malloc.c:318-319). It does
  so exactly when no free chunk ended where the block starts (`FailedRealloc`); a run in
  which the program loses its pointer is `ReallocLosesPointer`.
- `free(NULL)` should do nothing. After the first `malloc` it does so if and only if that
  call did not get memory at a misaligned address and a refusal of the padding
  (`FirstMalloc`); `FreeNullMatters` is a run in which it did. With an aligned break it
  always does (`FreeNullIsIgnored`).
- The generator before any `srand` should be as after `srand(1)` (include/stdlib.h:119-121).
  The first number is the same, the second is not. `rand` without a seed is as after
  `srand(0)`, and as after no other seed.
- `rand` never returns RAND_MAX (include/stdlib.h:107).
- A `printf` whose output is empty sends the error text, with its NUL, and returns 0; on
  an unsupported directive it sends the error text in place of what was still buffered
  (src/printf.c:385-388; `Printed`).
- Best fit passes over a free chunk whose slack is 2^32 - 1 or more, because `-1U` is an
  unsigned int (src/malloc.c:200; `LargeChunkPassedOver` is such a run). `malloc` never
  extends the last block, because its search always ends on a NULL link
  (src/malloc.c:238-239).
- `atoi` gives back what `%d` printed exactly when `ReadsBack` holds and the number is not
  INT_MIN: no `+` in front of a positive number, and no zero padding in front of a sign. The
  digits of INT_MIN overflow the accumulator of `atoi`, an int, whenever it reads them.
- The formatter checks a precision so that digits and NUL fit its buffer (src/printf.c:294-295),
  but not the sign in front of them: with a sign and precision 67 it has no room. `SignFits`
  is the exact condition, and `"%+.67d"` with 1 such a call (`SignDoesNotFit`).

## Model

| member | source | states |
|---|---|---|
| Allocator.ChunkSizeFits | src/malloc.c:65-72 | the chunk has room for header and data if and only if the request is at most SIZE_MAX - 15; then it is aligned, at least minimal, and wastes less than two words |
| Allocator.Heap.AlignedSbrk | src/malloc.c:107-138 | fails if and only if the size is above INTPTR_MAX or the platform refuses the memory or the padding; a success is a fresh aligned range ending at the break, adjacent to the heap if there is one; a failure leaves the heap in order, and moves sbrk_end only when the padding alone is refused |
| Allocator.Heap.ChunkGrow | src/malloc.c:149-176 | grows if and only if the block is the last one and the platform answers; then by at least a minimal chunk, keeping all data; otherwise nothing changes |
| Allocator.Heap.FindBestFit | src/malloc.c:192-214 | finds the lowest free chunk of least slack below the cap, and fails if and only if none fits |
| Spelled.NoFitMeans | src/malloc.c:200-214 | nothing fits when every free chunk is too small, or 4294967295 bytes or more too large |
| Spelled.ServedIsBestFit | src/malloc.c:202-214 | no free chunk that fits leaves less over than the one taken, and none at a lower address as little |
| Spelled.ServedLeavesRest | src/malloc.c:224-234 | a chunk 16 bytes or more larger than needed is cut to what is needed, a smaller one handed out whole; the rest stays free |
| Spelled.GrantsMeans | src/malloc.c:107-138 | aligned memory is given at once, or after a second call for the padding |
| Allocator.Heap.TakeWhole | src/malloc.c:224-226 | the free chunk becomes a block of its own size; no data and no other chunk changes |
| Allocator.Heap.CutFront | src/malloc.c:227-234 | the front of the chunk becomes a block, the rest takes its place in the free list; the stores in memory represent exactly that |
| Allocator.Heap.Malloc | src/malloc.c:191-248 | fails if and only if the size is 0, or nothing fits and the platform does not give aligned memory; one new block at least as large as needed and less than 16 bytes larger, disjoint from all others, taken from the best fit without a call of sbrk, or from new memory when nothing fits; failure changes neither layout nor memory; all data kept |
| Allocator.Heap.FindSlot | src/malloc.c:277-291 | the position where a block in use belongs in the sorted list, or the free chunk that ends where it starts, if and only if there is one |
| Allocator.Heap.LinkIn | src/malloc.c:277-294 | the block joins the free list, at most one pair of touching chunks remains, right behind it |
| Allocator.Heap.MergeNext | src/malloc.c:301-306 | merges that pair: afterwards no two free chunks touch |
| Allocator.Heap.Free | src/malloc.c:255-307 | exactly this block stops being in use; bounds and the data of all other blocks are kept, the free list is canonical again |
| Allocator.Heap.FreeNullIsIgnored | src/malloc.c:261-262 | in every heap whose break is aligned the range test ignores NULL; in general, once there is a heap, or sbrk_end is still NULL |
| Corners.FirstMalloc | src/malloc.c:107-138 | after the first malloc the range test ignores NULL if and only if the platform did not give misaligned memory and refuse the padding |
| Corners.FreeNullMatters | src/malloc.c:122-132 | such a run: the break starts at 1 and the second call of sbrk is refused |
| Allocator.Heap.SlideDown | src/malloc.c:357-361 | the data moves down into the left neighbour by an overlapping memmove and the two become one block |
| Allocator.Heap.AbsorbLeft | src/malloc.c:353-368 | left merge: the free chunk leaves the list, the joined block starts there and holds the data |
| Allocator.Heap.AbsorbRight | src/malloc.c:369-381 | right merge: the block extends over the free chunk, keeping its data |
| Allocator.Heap.Absorb | src/malloc.c:346-385 | the search merges all free neighbours, whichever exist: the block has the start and size that the layout determines, with its data; other blocks untouched |
| Allocator.Heap.Trim | src/malloc.c:390-398 | the rest is freed when it can be a chunk; then the block is less than 16 bytes larger than needed; otherwise nothing changes |
| Allocator.Heap.Relocate | src/malloc.c:401-407 | the data is copied to a new block and the old one freed; nothing changes, and NULL is returned, if and only if nothing fits and the platform gives no memory |
| Allocator.Heap.Realloc | src/malloc.c:323-408 | on every path the heap is in order and every other block keeps address and data; success delivers a large enough block, less than 16 bytes larger than needed, with the data up to the smaller size; the last block grows where it is whenever the platform answers; it fails if and only if the block cannot grow, the room around it is too small, no free chunk fits and the platform gives no memory; failure says where the block is now |
| Spelled.RoomMeans | src/malloc.c:346-384 | the room of a block is its size and that of the free chunks that end where it starts and start where it ends; it starts with the left one |
| Spelled.GrowsMeans | src/malloc.c:149-176 | a block grows in place when it is the last one and the platform gives what is missing, 16 bytes at least |
| Spelled.HopelessMeans | src/malloc.c:341-407 | the condition of failure, in sizes, free chunks and calls of sbrk |
| Spelled.ResizedInPlace | src/malloc.c:390-399 | a block that is large enough, or has the room around it, does not move elsewhere |
| Allocator.FailedRealloc | src/malloc.c:309-322 | after a failure the old block is in use at its address if and only if no free chunk ended at its start, and then holds its data |
| Corners.ReallocMovesAndFails | src/malloc.c:353-407 | whenever a free chunk ends at a block, a request beyond the memory returns NULL and the block is no longer at its address |
| Corners.ReallocLosesPointer | src/malloc.c:353-407 | such a run, from a new heap |
| Corners.LargeChunkPassedOver | src/malloc.c:200-214 | a run in which the only free chunk, of more than 4 GiB, is passed over for a request of 8 bytes |
| Allocator.NoFitKept | src/malloc.c:346-402 | merging the neighbours of a block does not change whether a request larger than the room around it fits a free chunk |
| Allocator.ResizedBytes | src/malloc.c:309-322 | a successful realloc keeps the leading bytes of the block, not only its words |
| Client.ReallocKeepsBytes | src/malloc.c:309-322 | the first min(size, old data size) bytes at the new address are those that were at the old one, and every other block keeps its address, size and bytes, also when it fails |
| Client.Program.Allocate | src/malloc.c:424-424 | a program's pointer is NULL if and only if the size is 0 or there is no room; otherwise it is a new block |
| Allocator.Heap.MemFree | src/malloc.c:437-445 | the list total plus the sizes of the blocks in use is the size of the heap |
| Allocator.TiledTotal | src/malloc.c:77-87 | chunks that tile a range have sizes that add up to it |
| Allocator.Conservation | src/malloc.c:437-445 | free list and blocks in use account for every byte of the heap |
| Layout.EveryAddressInOneChunk | src/malloc.c:60-63 | every address of the heap lies in exactly one chunk |
| Layout.Canonical | src/malloc.c:274-276 | bounds and blocks in use determine the free list and all chunks |
| Layout.AllFree | src/malloc.c:274-276 | with no block in use one free chunk spans the heap |
| Steps.Insert | src/malloc.c:292-294 | the two stores put the chunk into the sorted list that memory represents |
| Steps.MergeLeft | src/malloc.c:279-284 | storing the joint size in the left chunk represents the merged layout |
| Steps.MergeRight | src/malloc.c:302-306 | storing size and link represents the layout with the right chunk absorbed |
| Steps.Unlink | src/malloc.c:226-226 | one store to the parent link takes a chunk off the list, wherever it stands in it |
| Steps.Carve | src/malloc.c:227-234 | the stores of the split represent the chunk cut in two, the rest in its place on the list |
| Steps.GrowTop | src/malloc.c:164-168 | storing the new size at the top of the heap represents the grown layout |
| Steps.MoveDown | src/malloc.c:357-359 | moving the data keeps every header, every link and all other data |
| Client.AllocateAndRelease | src/malloc.c:218-306 | malloc then free is the identity on the whole layout whenever the request was served from the list |
| Client.ReleaseAll | src/malloc.c:255-307 | any set of distinct blocks can be freed in any order |
| Client.ReleaseOrderIrrelevant | src/malloc.c:274-306 | heaps that freed the same blocks in different orders have the same free list; freeing all leaves one chunk |
| Client.Program.Resize | src/malloc.c:323-408 | the words a program stored below the new size survive wherever the block goes; other pointers keep theirs |
| Client.Program.Read | src/malloc.c:309-322 | a program reads the last word it stored there |
| Client.Program.Run | src/malloc.c:421-430 | over any sequence of malloc, free, realloc and stores, each acts as on separate objects and the heap stays in order |
| Ram.StoreReflects | src/malloc.c:29-36 | storing an aligned word in the byte memory changes that word and no other |
| Ram.MoveReflects | src/malloc.c:358-359 | an aligned byte move is a move of words |
| Ram.WordsGiveBytes | src/malloc.c:309-313 | equal words mean equal bytes, so word preservation is byte preservation |
| Memory.LoadStore | src/memcpy.c:45-47 | a word stored is the word read back |
| Memory.StoreLoad | src/memcpy.c:45-47 | copying a word copies its bytes |
| BlockOps.Memcpy | src/memcpy.c:22-53 | dest holds the bytes of src, nothing else changes, for every alignment, when disjoint or dest is first |
| BlockOps.CopyUp | src/memcpy.c:42-51 | head, body and tail loops refine one shift of bytes; no read sees an overwritten byte |
| BlockOps.BackwardHeadUnreachable | src/memcpy.c:121-124 | equal alignment and overlap put the word boundary at or above the start, so that branch is never taken |
| BlockOps.CopyDown | src/memcpy.c:126-137 | the three downward loops refine one shift of bytes |
| BlockOps.Memmove | src/memcpy.c:103-139 | dest holds the bytes src held before, nothing else changes, for every pair, alignment and overlap |
| BlockOps.MovedByte | src/memcpy.c:103-139 | byte by byte, a move copies the range and leaves the rest |
| BlockOps.FilledByte | src/memcpy.c:65-93 | byte by byte, a fill sets the range and leaves the rest |
| BlockOps.WordOfRepeated | src/memcpy.c:75-79 | the multiplication repeats the byte in all eight bytes of the word, without overflow |
| BlockOps.Memset | src/memcpy.c:65-93 | the range holds the low byte of c, nothing else changes |
| Division.OrIsSum | src/support/umoddiv.c:44-44 | the two shifted words share no bit, so their bitwise or is their sum |
| Division.TrialQuotient | src/support/umoddiv.c:77-79 | a trial quotient is at most 2^16 + 1 and neither product exceeds 32 bits |
| Division.Correct | src/support/umoddiv.c:82-92 | at most two corrections, wrap-around decides the second one correctly, and the remainder ends below d |
| Division.QuotientDigit | src/support/umoddiv.c:77-92 | one exact 16-bit quotient digit with its remainder |
| Division.UdivAdjusted | src/support/umoddiv.c:69-115 | q * d + r is the 64-bit dividend and r < d, for every d with its top bit set |
| Division.Normalize | src/support/umoddiv.c:41-46 | the shifted words are the dividend scaled by the same power of two |
| Division.Umoddiv32 | src/support/umoddiv.c:26-67 | quotient and remainder are exactly n / d and n % d, for every n and every d but 0: the one-line form of include/noc_internal/common.h:63-67 |
| Digits.GetDigit | src/printf.c:27-51 | quotient and remainder in any base; mask and shift agree with division |
| Digits.NumeralDenotes | src/printf.c:306-312 | a numeral with enough digits denotes its number |
| Digits.ShownDenotes | src/printf.c:306-312 | the digits shown denote exactly the number and are max(precision, digits needed, 1) many |
| Digits.Convert | src/printf.c:300-312 | the buffer ends with exactly those digits and a NUL, for every 64-bit number and precision up to 67, all stores inside its 68 bytes |
| Formatter.ReadFlags | src/printf.c:103-123 | the flags are exactly the flag characters in the run, in any order |
| Formatter.ReadCount | src/printf.c:125-136 | the wrapping accumulation is the number denoted modulo 2^32; `*` takes an int, negative as 0 |
| Formatter.ReadHead | src/printf.c:99-152 | flags, width and precision as the grammar of the directive says |
| Formatter.SignAndMagnitude | src/printf.c:232-265 | the case analysis by width gives sign and absolute value of the two's complement reading, the least value included |
| Formatter.ConvertSigned | src/printf.c:300-316 | sign and digits as one C string, in the buffer, whenever they fit it |
| Format.SignFits | src/printf.c:294-314 | for every accepted precision, size and base, sign, digits and NUL fit the buffer if and only if there is no sign or the precision is below 67 |
| Format.SignDoesNotFit | src/printf.c:294-314 | the call printf("%+.67d", 1) has no defined meaning |
| Format.HexShows | src/printf.c:164-183 | in a hex dump digits 2i and 2i + 1 show character i |
| Formatter.WriteHex | src/printf.c:164-183 | sends exactly the hex dump, or goes on with ERROR_STR when there is no string or no precision |
| Formatter.WriteField | src/printf.c:319-352 | sends exactly the field, pad and value in order, and counts it; stops with a prefix sent if and only if the console refuses a flush |
| Formatter.WriteInteger | src/printf.c:224-316 | prefix, redirect, unsupported letter or number field, as the meaning of the directive says; stops short if and only if the console refuses a flush |
| Formatter.WriteStep | src/printf.c:82-353 | one pass sends the text of its step, consumes its arguments and advances beyond no NUL; stops short if and only if the console refuses a flush |
| Formatter.Passed | src/printf.c:82-298 | each pass keeps what was sent a part of the whole output; a redirect happens only outside ERROR_STR |
| Formatter.Run | src/printf.c:59-355 | terminates on every format; without a refusal it sends exactly the meaning of the format and returns its count or EOF; the first refusal ends it with EOF and a prefix sent |
| Format.CountIsLength | src/printf.c:77-87 | a result other than EOF is the number of characters sent |
| Format.PlainText | src/printf.c:16-16 | text without a percent sign, such as ERROR_STR, stands for itself |
| RoundTrip.IntegerMeans | src/printf.c:224-316 | every integer conversion shows a number congruent to its argument, in the range of the size, by digits that denote its magnitude in base 16 for p, x and X, 8 for o, 2 for b, 10 for d and u; as many as needed; capital letters for X, p and the flag #, small ones otherwise; prefix 0x for p and 0 for o |
| RoundTrip.DigitCharacters | src/printf.c:53-55 | the sixteen digits, small and capital |
| Directives.HeadIs | src/printf.c:99-152 | flags, width, dot and precision as written, by digits or `*`, are read back |
| Directives.NumberDirective | src/printf.c:184-353 | the text of a number directive at any place of a format, from the characters it is written with: flags, width, precision, length modifier and letter |
| Directives.StringDirective | src/printf.c:161-163 | %s sends as much of the string as the precision allows, or [null], in its field |
| Directives.CharDirective | src/printf.c:217-222 | %c sends the low byte of its argument |
| Directives.HexDirective | src/printf.c:164-183 | %H sends two hex digits, with small letters, for each of precision characters |
| Directives.SendsPlain | src/printf.c:82-97 | other characters stand for themselves, %% for one percent sign, and a percent sign at the end is an error |
| Directives.SendsNull | src/printf.c:80-80 | without a format nothing is sent and the result is -1 |
| Directives.TooWide | src/printf.c:154-157 | a width or precision above 128 replaces the rest of the format by the error text |
| Directives.TooPrecise | src/printf.c:294-298 | more than 67 digits send the prefix and the error text |
| Directives.UnknownLetter | src/printf.c:288-291 | any other letter ends the output with -1 |
| RoundTrip.FieldLayout | src/printf.c:319-352 | the field has max(width, effective length) characters, pad then value or value then spaces, if and only if there is a precision or the value is shorter than 2^32 |
| Sinks.SnprintfState.Write | src/printf.c:412-418 | what was sent, cut at the end, stands in the string; the rest of it is untouched |
| Sinks.PrintfState.Write | src/printf.c:362-374 | flushed buffers then live buffer are what was sent, in order; only full buffers are flushed; it fails if and only if the console refuses a flush |
| Printf.Snprintf | src/printf.c:426-446 | the first min(n - 1, length) characters and a NUL; a NUL in the last byte; no other byte changes; the result does not depend on n |
| Printf.Printf | src/printf.c:376-391 | result and console are determined by the output and by which calls the console refuses: full buffers up to the first refusal; then ERROR_STR with its NUL and EOF, if a flush was refused; else the rest of the output and a positive number, if the count is positive, or ERROR_STR with its NUL and the count or EOF |
| Printf.PrintedWhole | src/printf.c:376-391 | when the console takes everything it gets the whole output, or whole buffers of 256 characters and the error text |
| Printf.PrintedNothing | src/printf.c:365-388 | when it refuses the first call, an output that fits the buffer is lost, and of a longer one only the error text is shown |
| Atoi.Accumulate | src/atoi.c:24-27 | the accumulator is the number the digits denote and never overflows when that fits an int |
| Atoi.Atoi | src/atoi.c:13-29 | the number the string shows, for every C string whose magnitude fits an int |
| RoundTrip.AtoiMeans | src/atoi.c:18-28 | blanks and the characters 9 to 13, at most one minus, and digits up to the first other character |
| RoundTrip.OtherStops | src/atoi.c:18-28 | any other character in front gives 0 |
| RoundTrip.DecimalMeans | src/atoi.c:24-27 | each digit counts ten times the one behind it |
| RoundTrip.PrintsItsText | src/printf.c:82-353 | a format that is one %d directive, widths by digits or `*`, prints its field and returns its length |
| RoundTrip.DecimalReadsBack | src/atoi.c:13-29 | for every int, flag, width and precision up to 66: the text shows the number if and only if ReadsBack holds; its magnitude fits an int unless the number is INT_MIN and ReadsBack holds; so atoi is defined and gives the number back if and only if ReadsBack holds and it is not INT_MIN |
| RoundTrip.PrintThenParse | src/printf.c:426-436 | snprintf into a large enough buffer, then atoi of it, wherever atoi is defined, gives the int back if and only if ReadsBack holds |
| Random.MixIsPermutation | src/rand.c:36-38 | the step has an explicit two-sided inverse |
| Random.StepLeavesZero | src/rand.c:31-38 | after any step the state is not zero |
| Random.RunAdd | src/rand.c:27-40 | runs compose: m + n steps are m steps and then n |
| Random.RunInjective | src/rand.c:27-40 | different non-zero states stay different after any number of steps |
| Random.NoTail | src/rand.c:27-40 | equal states i < j of a run from a non-zero state force state 0 = state j - i |
| Random.EveryStateRecurs | src/rand.c:27-40 | every non-zero state comes back, in fewer than 2^64 steps |
| Random.ScrambleIsInjective | src/rand.c:34-34 | the output is a one-to-one function of the first state word |
| Random.ScaledRange | src/rand.c:42-47 | rand is at least 0 and below RAND_MAX |
| Random.Generator.Next | src/rand.c:27-40 | the two words become the next state, the result is its output |
| Random.Generator.Rand | src/rand.c:42-47 | the scaled output of the state, which advances once |
| Random.SeedOneIsNotUnseeded | src/rand.c:42-52 | rand gives the same first number without a seed and after srand(1), and different second ones |
| Random.UnseededIsSeedZero | src/rand.c:42-52 | rand gives the unseeded sequence after a seed if and only if the seed is 0 |
| Random.NumbersAfterSeedOne | src/rand.c:27-52 | the first four numbers after srand(1) |

## Left out

- Allocator.Heap.Malloc: requests above SIZE_MAX - 15 are excluded, because their chunk size wraps to at most a word; `ChunkSizeFits` says that these are all.
- Allocator.Heap.Free: foreign pointers and blocks no longer in use are excluded, as C11 section 7.22.3.3 does; so is free(NULL) in the states in which the range test does not ignore it, where the source reads a header below address 0.
- Allocator.Heap.Realloc: excludes the same requests; the contract is on words of 8 bytes; `ResizedBytes` and `SameDataBytes` carry it over to bytes.
- Allocator.Heap.FindSlot: the double-free branch inside its loop is not modelled, because a block in use is never on the list.
- Allocator.Heap.ChunkGrow: the branch for another user of sbrk (src/malloc.c:170-174) is dead in this environment.
- Formatter.Run: formats without a defined meaning are excluded: a missing argument or one of another type, a sign in front of 67 digits, and a hex dump that reads behind the NUL or shows a character above 127, because the source shifts a plain `char`, whose signedness is the compiler's.
- Formatter.WriteField: `count` is an unbounded integer here; outputs longer than INT_MAX overflow it in C.
- Printf.Snprintf: snprintf and vsnprintf have one body in C and are one method here; the variable arguments are a sequence of typed values.
- Printf.Printf: `putnstr` is the environment; its positive answers are arbitrary. `puts` is not modelled.
- BlockOps.Memcpy: memory ends a word below SIZE_MAX, so that rounding an address up does not wrap; the C branch is modelled, not the assembly.
- BlockOps.Memset: the plain stores of `c` and the word stores are modelled; `memset_explicit` and the checking variants are not.
- Division.Umoddiv32: `(a << 16) | b` with no common bits is written as a sum, which `OrIsSum` justifies; division by zero traps in C and is excluded.
- Random.Generator.Rand: statistical quality is not modelled.
- Heap and formatter functions are split into one method per loop or branch; a `goto` in `noc_free` becomes the order of two calls.
- The model fixes 64-bit words, MALLOC_ALIGN 8 and the default MAX_FORMAT and PRINTF_BUFFER_SIZE.
- Pointers to `struct free_chunk *` are a datatype (the list head or the next field of a chunk), not addresses.
- Characters are Dafny's; only codes below 256 occur in C.
- calloc is not modelled: it requests `size` bytes and clears `nmemb * size`.
- Square root, strings beyond their length, abs, errno, logging, system calls, start-up code and the platform's own sbrk are not modelled.
