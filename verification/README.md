# Quakernel: verification of the memory layer and the libc routines

Quakernel is a small kernel with a trimmed libc. This project models its optimised memory and string
routines, its integer parsers, its tokenizer and its free-memory computation, and proves for all inputs that
each does what a simple definition says.

* `Memory`, `MemCopy`, `Arithmetic`: flat byte memory, little-endian words, `memcpy`/`memmove` and `memset`.
* `Swar`, `Scan`: the word tests and `strlen`, `__strchrnul`, `memchr`, `strcspn`.
* `Search`: `memcmp`, `memmem`, `strncmp`, `strnstr`.
* `Numbers`, `NumberLaws`, `Numerals`: `strtol`, `strtoll`, `strtoul`, their laws, and the grammar they read.
* `Strtok`: the tokenizer and whole runs of it.
* `Sorting`: `InsertionSort` on raw bytes.
* `Words`: the mask expressions of the source on 64-bit words and the arithmetic written for them.
* `FreeBlocks`, `FreeBlockLaws`, `Pipeline`, `Arena`: free blocks, sorting before them, the arena on them.

Conventions. A pointer is an index into memory, so pointers are not null and blocks do not wrap around the
address space; a routine that only reads takes memory as a sequence, one that writes takes an array. The
target is LP64 with an unsigned plain `char` (riscv64). The tests `p & 3` and `p & 7` are written `p % 4` and
`p % 8`; `Words` ties masks to remainders. Word scans run over memory made of whole aligned words, which may
end with the word that holds the byte they stop at. The character classes of `ctype.h` are declared without
bodies in the repository and are taken as ASCII. Ghost parameters such as `nul` name the terminator that the
caller's string has.

Properties the code does not have on all inputs are stated with the exact condition under which it has them:

* `strlen` tests only bytes 0 to 3 of a word unless `LONG_BIT` is at least 64. Nothing in the repository defines
  `LONG_BIT`, and an undefined name counts as 0 in `#if`, which takes that short branch. The value is a parameter,
  `longBit`; `StrlenCorrectIff` says which terminators are found, and `__strchrnul`, `strcspn` and `strnstr`
  carry the same condition where they call `strlen`.
* A prefix `0x` or `0b` that no digit follows makes the parsers report no conversion, where the C standard
  takes the `0`. `MeetsStandardIff` has the condition; the code is followed.
* The free-block computation rounds a block's base up and its size down from the unrounded gap, so a block can
  leave its gap. `BlockInsideIff` has the condition for a block, `EmitFreeIffOverrunFree` and `EmitFreeIff` those
  for a call to emit free addresses only, `EmitOverrun` an input that fails. What is emitted is exact on every
  alignment (`EmittedIff`, `EmittedAddressIff`).
* A RAM region that ends at or past 2^64 wraps around and is lost as a whole (`WrappedRamIsLost`); an occupied
  region that ends at 2^64 can be handed out (`WrappedOccupiedIsFreed`).
* The arena compares after an addition that may wrap. `GrantedInsideIff` has the condition, `WrappingRequest`
  an input that fails.

## Model

| member | source | states |
|---|---|---|
| Memory.SplitJoin32 | nolibc/src/string/memcpy.c:97 | a word load followed by a word store moves exactly the four bytes that were there |
| MemCopy.Memcpy | nolibc/src/string/memcpy.c:49-135 | for every length, alignment and overlap the destination ends up with the old source bytes and no other byte of memory changes; every word access is aligned |
| MemCopy.CopyForward | nolibc/src/string/memcpy.c:69-100 | the ascending branch (head bytes, words, tail bytes) moves the whole block although it overwrites its own source |
| MemCopy.CopyBackward | nolibc/src/string/memcpy.c:101-132 | the same for the descending branch |
| MemCopy.Memmove | nolibc/src/string/memmove.c:3-6 | memmove's promise for overlapping blocks, section 7.24.2.2 of ISO/IEC 9899:2011, met by calling memcpy |
| MemCopy.ToByte | nolibc/src/string/memset.c:21 | the unsigned char of an int is its value modulo 256 |
| MemCopy.FillWords | nolibc/src/string/memset.c:54-63 | the aligned words from an address on hold the fill byte in all four places, nothing else changes |
| MemCopy.Memset | nolibc/src/string/memset.c:7-66 | exactly the n bytes at dest become the unsigned char of c, for every n and alignment: head and tail stores and the aligned word fill leave no hole and spill nothing |
| Swar.HasZeroFindsByte | nolibc/src/string/memchr.c:8-11 | HASZERO(x ^ k) is non-zero if and only if some byte of the 64-bit word x equals c, k being c replicated by the multiplication with ONES |
| Swar.HasZeroFindsZero | nolibc/src/string/strchrnul.c:8-11 | HASZERO(x) is non-zero if and only if some byte of x is zero |
| Swar.MayHaveZeroExact | nolibc/src/string/strlen.c:24-48 | the cheaper strlen test fires if and only if some byte is zero or above 0x80: no false negative, and no false positive on 7-bit text |
| Scan.Strlen | nolibc/src/string/strlen.c:81-117 | the distance to the first NUL among the addresses the code tests, reading nothing past the aligned word that holds it; none when there is no such NUL |
| Scan.StrlenCorrectIff | nolibc/src/string/strlen.c:106-111 | the terminator is what strlen finds if and only if LONG_BIT is at least 64, or the terminator is in bytes 0 to 3 of its word, or in the word an unaligned string starts in |
| Scan.StrlenMissesUpperHalf | nolibc/src/string/strlen.c:106-111 | a 16-byte memory on which the build with a smaller LONG_BIT reports a later NUL than the terminator |
| Scan.Strchrnul | nolibc/src/string/strchrnul.c:13-44 | the first position holding c or NUL, for every alignment, within the aligned words of the string; for c equal to NUL it is what strlen finds, right whenever strlen tests the terminator |
| Scan.Memchr | nolibc/src/string/memchr.c:13-42 | the first of n bytes equal to c or none, reading inside the n bytes; n may exceed the object when a match comes first |
| Scan.SetBit | nolibc/src/string/strcspn.c:5-6 | setting the bit of one byte in the 256-bit set adds that byte and no other |
| Scan.BuildByteset | nolibc/src/string/strcspn.c:18-24 | the four-word bitmap holds exactly the bytes of the second string |
| Scan.Strcspn | nolibc/src/string/strcspn.c:8-32 | the length of the longest prefix without a byte of the second string, by the bitmap and by the short-set route alike; for an empty set under the condition of strlen |
| Search.Memcmp | nolibc/src/string/memcmp.c:3-34 | zero if and only if the n bytes are equal, otherwise the difference at the first byte that differs |
| Search.Memmem | nolibc/src/string/memmem.c:34-71 | the least position at which the needle occurs, none if and only if it occurs nowhere or is empty |
| Search.Strncmp | nolibc/src/string/strncmp.c:12-47 | zero if and only if no character up to n and up to the NUL of the first string differs, otherwise the first difference, on any memory the comparison stays in |
| Search.Strnstr | nolibc/src/string/strnstr.c:48-73 | where strlen tests the needle's terminator, the least match within slen characters and before the NUL of the string, none if and only if there is none; in any case the first match of the length strlen reports; the string itself for an empty needle |
| Search.HeadMatchIsMatch | nolibc/src/string/strnstr.c:52-69 | with the needle's true length the comparison of the first character and then up to a NUL is an occurrence inside the searched part |
| Numbers.Strtol | nolibc/src/stdlib/strtol.c:78-207 | value and end pointer of the digit run for every string and every int base, clamped to [LONG_MIN, LONG_MAX]; the unsigned accumulator and the negation stay in 64 bits |
| Numbers.Strtoul | nolibc/src/stdlib/strtoul.c:78-173 | the magnitude negated modulo 2^64 under a minus sign, ULONG_MAX above ULONG_MAX whatever the sign, for every int base |
| Numbers.Strtoll | nolibc/src/stdlib/strtoll.c:43-200 | the same clamped value computed by a signed accumulator that grows downwards; no signed intermediate overflows |
| Numbers.SkipPrologue | nolibc/src/stdlib/strtol.c:106-137 | white space, sign, prefix and base in effect, stopping inside the string whatever it holds |
| Numbers.SignedStep | nolibc/src/stdlib/strtoll.c:157-190 | one digit of the signed accumulation keeps the accumulator equal to the signed number so far or to the limit, without leaving 64 bits |
| Numbers.CutoffExact | nolibc/src/stdlib/strtol.c:139-158 | comparing with limit / base and limit % base decides exactly whether one more digit takes the number past the limit |
| Numbers.AccumulateStep | nolibc/src/stdlib/strtol.c:180-189 | one digit keeps the accumulator equal to the number so far or the overflow mark on a number above the limit; after an overflow there is no way back |
| NumberLaws.ValueSplit | nolibc/src/stdlib/strtol.c:160-190 | the value of a digit run is positional: a run cut anywhere is worth its front times a power of the base plus its back |
| NumberLaws.StrtollAgreesIff | nolibc/src/stdlib/strtoll.c:80-199 | strtoll and strtol agree on value and end pointer, for every string and base, if and only if no 0b prefix is read |
| NumberLaws.StrtoulIsStrtolModulo | nolibc/src/stdlib/strtoul.c:160-172 | where strtol does not clamp, strtoul returns the same 64 bits and end pointer |
| NumberLaws.MeetsStandardIff | nolibc/src/stdlib/strtol.c:121-132 | the parse is that of section 7.22.1.4 of ISO/IEC 9899:2011 (with the optional 0b prefix) if and only if no prefix lacks a digit after it |
| NumberLaws.DanglingHex | nolibc/src/stdlib/strtol.c:121-126 | on 0x without a hexadecimal digit the code reports no conversion where the standard takes the 0 |
| NumberLaws.RoundTrip | nolibc/src/stdlib/strtol.c:78-207 | every integer, printed in any base from 2 to 36, is read back by all three functions: clamped, or saturated and modulo 2^64, with its last character the end |
| Numerals.DigitOfIff | nolibc/src/stdlib/strtol.c:162-174 | the digit that a character is taken for is its place in 0-9a-z or 0-9A-Z, and no other character is a digit |
| Numerals.WrittenIsRead | nolibc/src/stdlib/strtol.c:106-206 | white space, a sign or none, a prefix or none as the base allows, and digits in either case up to a character that is none: their place value, signed, and the end of the digits are what is read, for every base |
| Numerals.ReadIsWritten | nolibc/src/stdlib/strtol.c:106-206 | and when anything is converted, a number of that form is written there |
| Numerals.ParseIff | nolibc/src/stdlib/strtol.c:106-206 | on every string and base the parse is the number written in the grammar, or no conversion when none is; so the grammar gives a string one number at most |
| Numerals.ResultsOfWritten | nolibc/src/stdlib/strtoul.c:78-173 | the results of all three on what is written: nearest long, or modulo 2^64 with ULONG_MAX beyond; strtol and strtoll convert nothing outside bases 0 to 36 |
| Strtok.RunIsAllTokens | nolibc/src/string/strtok.c:43-101 | a run of calls yields every maximal delimiter-free segment, nothing else, each once and in order |
| Strtok.NextAndLater | nolibc/src/string/strtok.c:55-99 | the segments of a string are the one the next call finds and the segments past the delimiter that ends it |
| Strtok.CutKeepsTokens | nolibc/src/string/strtok.c:85-96 | the NULs written during a run leave every returned token readable as its segment |
| Strtok.EndsToken | nolibc/src/string/strtok.c:82-98 | the scan of the delimiter string, its terminator included |
| Strtok.Saved.StrtokR | nolibc/src/string/strtok.c:43-108 | one call: the next token, the single byte it overwrites, and the saved position, with any delimiters and any continuation; NULL state stays NULL |
| Strtok.TokenizeAll | nolibc/src/string/strtok.c:129-132 | the tokenizing loop terminates with exactly the maximal segments in order, cuts the text after each token and nowhere else, and leaves the state that returns NULL again |
| Sorting.SortPermutes | kernel/src/lib/c_lib.c:11-21 | for any comparator the elements keep their multiplicities |
| Sorting.SortSorts | kernel/src/lib/c_lib.c:11-21 | for a comparator that is a total preorder the result is sorted |
| Sorting.SortStable | kernel/src/lib/c_lib.c:11-21 | elements that compare equal keep their order |
| Sorting.InsertionSort | kernel/src/lib/c_lib.c:6-22 | the raw-byte algorithm leaves in memory the sorted elements for any element size up to 256, changes nothing outside them and its key buffer, and halts on larger elements |
| Sorting.InsertElement | kernel/src/lib/c_lib.c:13-20 | one round of the outer loop: the key copied out, larger elements shifted up by memcpy, the key copied into the hole |
| Words.AlignDownIsMask | kernel/src/memory/memory.h:57-60 | on 64-bit words, the mask computes the integer AlignDown of the word's value |
| Words.AlignUpIsMask | kernel/src/memory/memory.h:61-64 | and the mask after the addition computes AlignUp, where the addition does not wrap |
| Words.AlignmentTests | nolibc/src/string/memcpy.c:75-81 | the two bit tests on a pair of addresses are tests on their remainders modulo 4 |
| FreeBlocks.EmitFreeAlignedMemBlocks | kernel/src/memory/memory.c:6-61 | the loops append the rounded gaps in order after the entries already there and change no other entry, wrap-around included |
| FreeBlocks.EmitRegion | kernel/src/memory/memory.c:17-59 | one RAM region's blocks appended in order, for any occupied regions |
| FreeBlockLaws.GapsExact | kernel/src/memory/memory.c:15-49 | with occupied regions sorted by base, overlapping or not, the gaps walked through are RAM minus occupied, address by address, whatever the alignment |
| FreeBlockLaws.GapsIff | kernel/src/memory/memory.c:15-49 | one gap for each maximal stretch of a RAM region between occupied regions, cut at empty ones too, and no others |
| FreeBlockLaws.WrappedRamIsLost | kernel/src/memory/memory.c:18 | a RAM region that ends at or past 2^64 has no gaps, so all of it is lost |
| FreeBlockLaws.WrappedOccupiedIsFreed | kernel/src/memory/memory.c:26-47 | an input on which an occupied region that ends at 2^64 sends the walk back to address 0, and everything is found free, twice |
| FreeBlockLaws.EmittedIff | kernel/src/memory/memory.c:33-58 | on every alignment exactly these blocks are emitted: for each stretch of 8 bytes or more, the first multiple of 8 from its start on, with the stretch's length less than 8 bytes short |
| FreeBlockLaws.EmittedAddressIff | kernel/src/memory/memory.c:33-58 | on every alignment the emitted addresses are the aligned words inside the stretches and, under the stated remainders, the one word at a stretch's end |
| FreeBlockLaws.BlockInsideIff | kernel/src/memory/memory.c:35-40 | a block stays in its gap if and only if the gap starts aligned or the remainder of its end is below that of its start |
| FreeBlockLaws.EmitInsideIff | kernel/src/memory/memory.c:33-58 | a whole call emits no block that leaves its gap if and only if every emitting gap meets that condition |
| FreeBlockLaws.EmitFreeIffOverrunFree | kernel/src/memory/memory.c:33-58 | without any alignment, only free addresses are emitted if and only if the few addresses that blocks cover past their gaps, counted in closed form, are free |
| FreeBlockLaws.RoundsInsideEmitsFree | kernel/src/memory/memory.c:33-58 | if every emitting gap rounds inside itself, only free addresses are emitted |
| FreeBlockLaws.EmitFreeIff | kernel/src/memory/memory.c:33-58 | the converse too, where no occupied region is empty and no RAM region lies over another's end |
| FreeBlockLaws.EmitOverrun | kernel/src/memory/memory.c:35-40 | an unaligned input on which the only emitted block reaches into an occupied region |
| FreeBlockLaws.EmittedBlockIsFree | kernel/src/memory/memory.c:33-58 | with aligned RAM bases and occupied ends every block is aligned, inside one RAM region and off every occupied region |
| FreeBlockLaws.EmitIsFreeWords | kernel/src/memory/memory.c:33-58 | with aligned RAM bases and occupied ends an address is emitted if and only if its whole aligned 8-byte word is free |
| FreeBlockLaws.MaximalGapLoss | kernel/src/memory/memory.c:33-58 | then each maximal free gap starts aligned and loses exactly its last end % 8 addresses, fewer than 8 |
| FreeBlockLaws.EmitExact | kernel/src/memory/memory.c:15-60 | with all boundaries aligned the blocks cover exactly RAM minus occupied |
| FreeBlockLaws.EmitAscending | kernel/src/memory/memory.c:15-60 | for ascending disjoint RAM regions the blocks are ascending and disjoint |
| FreeBlockLaws.AllStartsBound | kernel/src/memory/memory.c:33-43 | disjoint RAM regions share no occupied start, so all of them together emit at most once for each |
| FreeBlockLaws.EmitCount | kernel/src/memory/memory.c:15-59 | at most as many blocks as there are RAM and occupied regions, for disjoint RAM regions in any order |
| Pipeline.LoadedIffStored | kernel/src/memory/memory.h:7-11 | a region loaded from 16 bytes is the one stored there: base address in the first eight bytes, size in the others, least significant byte first |
| Pipeline.SortingSorts | kernel/src/memory/memory.h:14-21 | InsertionSort with MemCompareBlocksByAddr establishes the order the emitter requires |
| Pipeline.SortDecodes | kernel/src/memory/memory.h:14-21 | sorting elements as bytes sorts the regions that they encode |
| Pipeline.SortRegions | kernel/src/lib/c_lib.c:6-22 | memory that stores regions is left storing the same regions sorted by address, nothing else changed |
| Pipeline.SortedListsAgree | kernel/src/memory/memory.c:22-47 | the loop over the occupied regions finds the same gaps for any two lists of the same regions that are sorted by base, repeated regions or not |
| Pipeline.PipelineOrderIndependent | kernel/src/memory/memory.c:15-60 | sorting and emitting depends on the set of occupied regions only, not on their order, repetition or alignment |
| Pipeline.PipelineExact | kernel/src/memory/memory.c:15-60 | sorting and emitting from aligned regions in any order covers exactly RAM minus occupied |
| Pipeline.SortAndEmit | kernel/src/memory/memory.h:47-55 | regions stored in memory are sorted there, read back, and the blocks of the pipeline for these regions appended to the output, with everything else unchanged |
| Arena.MemLinearArena.Alloc | kernel/src/memory/linear_arena.c:14-24 | what is granted and how used changes, wrap-around of the addition included; without wrap-around, granted if and only if the request fits |
| Arena.GrantIff | kernel/src/memory/linear_arena.c:16-19 | a request that does not wrap is granted if and only if it fits, filling the arena included |
| Arena.RunInFull | kernel/src/memory/linear_arena.c:14-24 | requests whose sum fits are all granted, each right behind the one before |
| Arena.GrantedInsideIff | kernel/src/memory/linear_arena.c:16-23 | a granted request lies in the arena if and only if used + sizeInBytes does not wrap |
| Arena.WrappingRequest | kernel/src/memory/linear_arena.c:16-19 | a request of almost 2^64 bytes that a 16-byte arena grants |
| Arena.RunInsideIff | kernel/src/memory/linear_arena.c:14-24 | over a whole run everything granted lies in the arena if and only if no granted request wraps |
| Arena.RunAscending | kernel/src/memory/linear_arena.c:14-24 | then the blocks granted between two resets are pairwise disjoint |
| Arena.ArenaOnFreeBlock | kernel/src/memory/linear_arena.c:5-24 | an arena made of an emitted block hands out only addresses that are RAM and not occupied |

## Left out

- InsertionSort: the comparator is a function of the bytes of the two elements; one that reads other memory or keeps state is not modelled, nor is an element count beyond the signed 64-bit loop variable.
- AlignUpIsMask: says nothing about a value within 7 of 2^64, where the addition wraps; no emitted block comes from one.
- EmitFreeAlignedMemBlocks: a region that ends at or past 2^64 is modelled with the wrap-around of the code, but apart from WrappedRamIsLost and the input of WrappedOccupiedIsFreed the laws are about regions that end below 2^64.
- Strtol: a null `endptr` (one skipped store) is not modelled; `errno` is not set by the code.
- StrtokR: delimiters in the same memory as the text are not modelled, because the cuts could then change them.
- Strict aliasing, `restrict`, null arguments and the early returns for them in `memcmp` and `strncmp`.
- `strtoull`, whose letter digits are mapped with the wrong sign; `strtoul` has the same logic without that.
- `strtold`, and the functions that are declared without a source in the repository.
- The thin compositions `strcpy`, `strcat`, `strncat`, `strncpy`, `strchr`, `strrchr`, `strcoll`, `memrchr`: easy once the core is proved.
- UART and serial access, interrupts, device-tree parsing, framebuffer, console, font and the bootloader requests.
