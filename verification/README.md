# SP OS kernel: a verified model

SP OS is a 32-bit hobby kernel. This project models eight of its components in Dafny, in the form the
kernel's C and C++ give them (loops over buffers, lists threaded through memory, objects with links), and
proves what they compute on all inputs and over whole runs.

| component | modules |
|---|---|
| software 64-bit division | `SoftDivision` |
| integer and string part of printf | `Text`, `PrintfField`, `PrintfFormat`, `PrintfSink`, `PrintfNumber`, `PrintfEngine`, `PrintfTheorems`, `PrintfAlternative`, `PrintfPrecision`, `PrintfConcat`, `PrintfWritten`, `PrintfReference` |
| first-fit allocator over bytes | `HeapModel`, `Allocator` |
| memcpy, memset, ELF loader | `Bytes`, `MemoryOps`, `ElfLoader`, `ElfLayout` |
| scrollback console | `Console`, `ConsoleRuns` |
| FAT16 reader | `FatVolume`, `FatChain`, `FatReader`, `FatDirectory`, `FatSearch` |
| word wrap of a text window | `TextWrap` |
| in-memory file tree | `FileModel`, `FileTree` |

The target is `-m32`: `long`, `size_t` and pointers have 32 bits and `char` is signed. Machine integers are
mathematical integers with the wrap-around written out; memory is a sequence or array of bytes, little-endian.
An imperative method is proved against a specification function, and the laws of that function are lemmas.
`Machine` and `Text` hold arithmetic and strings.

What is read from outside is said twice, once as the code decodes it and once in the characters or bytes themselves,
with lemmas that the two agree: directives of a format and their arguments (`PrintfWritten`, `PrintfReference`), heap
headers (`Allocator.HeaderLayout`), the records of an ELF file (`ElfLayout`), boot sector, FAT, clusters and directory
entries of a disk (`FatChain`, `FatDirectory`), and the cells of the screen (`Console.Painted`).

Where the code does not do what its documentation or the standard asks for, the model follows the code, and a
lemma says exactly when it does:

- Integer conversions without `#` print the field of section 7.21.6.1 of C11 exactly when the digits fit the
  32-character scratch buffer and `PrintfField.MeetsStandard` holds: the `-` flag skips the zeros of a precision,
  and a full buffer has no room for the sign.
- With `#` they print the standard's alternative form exactly when the digits fit and
  `PrintfAlternative.MeetsAlternative` holds, or `ZeroMeetsAlternative` for the value 0: the flag drops digits that
  just fill the width, and adds a 0 in octal where the precision already supplies one. The `b` conversion, which
  C11 does not have, is judged by the same rules, with `0b` as its mark.
- A negative `*` precision is taken as 0, not as absent. For integer conversions without `#` this prints the same
  exactly under `PrintfPrecision.NegativePrecisionHarmless`, with `#` for values other than 0 under
  `NegativePrecisionKeepsForm`, both for digits that fit; for `%s` it does when the string is empty or made of blanks
  within the width.
- `malloc` adds the header in 32 bits; the block list survives exactly when no block is split inside its header
  (`HeapModel.SplitsHeader`), which only a request within 12 bytes of 2^32 can cause.
- `memcpy` moves words and copies overlapping ranges correctly exactly under the condition of
  `MemoryOps.CopyExact`.
- The name that the FAT reader lists and compares is the 8.3 name of the FAT specification exactly under
  `FatDirectory.Keeps83`: a base shorter than eight characters loses its dot and extension, a base of eight without
  an extension gains a dot, and a first byte of 5 is not read as 0xE5.
- After a scrolled screen is cleared the window stays where it is, so that the cursor's row lies above it: what is
  printed next is not shown. Over every run this is the one way for it to happen, besides taking back a character
  with a prompt of no width (`ConsoleRuns.RunStrands`, `Strands`).
- A text that would just fill the window's width is still broken at its last blank
  (`TextWrap.RestOnOneLine`). When all words fit the width, every line but the last ends at a blank exactly unless
  the text is longer than the width and has no blank behind its first character up to the one after the width
  (`TextWrap.WordsStayWhole`).
- A file is found under the name it was created with exactly when the name has at most one dot and is new in the
  directory (`FileModel.AddThenFind`), and a search misses the current directory itself (`FileModel.FindFails`).

## Model

| member | source | states |
|---|---|---|
| SoftDivision.Udivdi3 | src/printf.c:128-139 | the true quotient for all 64-bit n and d > 0; all ones for d = 0 |
| SoftDivision.Umoddi3 | src/printf.c:141-151 | the true remainder for all 64-bit n and d > 0; n for d = 0 |
| SoftDivision.ShiftInExact | src/printf.c:131-132 | the 64-bit left shift of r never loses a bit, even for d > 2^63, because r never exceeds n >> (i + 1) |
| SoftDivision.DividedStep | src/printf.c:130-137 | one iteration keeps: q and r are quotient and remainder of the bits read so far, the quotient shifted back into place |
| Text.DigitsDenote | src/printf.c:324-328 | the digits of a number, read back in their base, denote it |
| Text.NoLeadingZero | src/printf.c:324-328 | the digits start with 0 only for the value 0 |
| Text.DigitsCase | src/printf.c:324-328 | the characters are decimal digits and letters a to f, or A to F where upper case is asked for |
| Text.LastDigitsDenote | src/printf.c:328 | keeping the last n digits reduces the number modulo base^n |
| PrintfNumber.StoreDigits | src/printf.c:322-329 | the digit loop of `_ntoa_long` leaves, reversed and inside the 32-byte buffer, the last 32 digits of the value, or none for 0 with a precision |
| PrintfNumber.StoreLongDigits | src/printf.c:347-354 | the same for 64-bit values, with `%` and `/` done by the software division |
| PrintfTheorems.KeptDenotes | src/printf.c:322-329 | the stored digits denote value mod base^32; a value below base^32 is stored whole with no leading zero |
| PrintfTheorems.ArgumentFits | src/printf.c:753-784 | every integer argument is below base^32, except a 64-bit one printed in base 2 |
| PrintfNumber.PushPadding | src/printf.c:260-271 | precision and width zeros go in front of the digits, cut at 32 characters, after the sign took one column |
| PrintfNumber.PushPrefix | src/printf.c:273-293 | what `#` drops and puts in front, never leaving the 32-byte buffer |
| PrintfNumber.PushSign | src/printf.c:295-305 | one sign character, if the 32-byte buffer has room |
| PrintfNumber.OutRev | src/printf.c:230-254 | sends the reversed buffer with blanks before or after it up to the width; the index advances by as much |
| PrintfNumber.NtoaFormat | src/printf.c:258-308 | sends the whole field of digits, zeros, prefix, sign and blanks, in order, to any of the outputs |
| PrintfField.StandardFieldLength | src/printf.c:230-254 | the field of section 7.21.6.1 of C11 has length max(width, sign + max(digits, precision)) |
| PrintfField.LeftLayout | src/printf.c:261-271 | left-justified fields: equal to the standard's exactly when no precision zeros are asked for and the sign fits |
| PrintfField.ZeroFilledLayout | src/printf.c:262-270 | zero-filled fields: equal to the standard's exactly when zeros, digits and sign fit the 32-byte buffer |
| PrintfField.BlankFilledLayout | src/printf.c:230-244 | right-justified fields: the same, save that a padding blank can stand in for a dropped blank sign |
| PrintfField.LayoutExact | src/printf.c:258-308 | for all digits, signs, precisions, widths and flags without `#`: the code prints the standard's field if and only if MeetsStandard |
| PrintfAlternative.AlternativeExact | src/printf.c:273-293 | o, x, X, b with `#` of any value: the text is the standard's alternative form if and only if the digits fit 32 characters and MeetsAlternative holds, or ZeroMeetsAlternative for 0 |
| PrintfAlternative.BodyExact | src/printf.c:260-293 | mark, zeros and digits of a nonzero value are those of the alternative form if and only if MeetsAlternative holds |
| PrintfAlternative.HashFieldKeepsDigits | src/printf.c:274-293 | with `#`, the printed field, blanks aside, ends with all digits if and only if they fit the buffer and their count is not the width, nor one less in a zero-filled hexadecimal field |
| PrintfAlternative.OctalPrecisionFails | src/printf.c:290-292 | `%#.3o` of 8 prints 0010, the alternative form is 010 |
| PrintfTheorems.ConversionExact | src/printf.c:721-787 | d, i, u, x, X, o, b without `#` of any value: the text is the standard's if and only if the digits fit 32 characters and MeetsStandard holds |
| PrintfTheorems.FieldLength | src/printf.c:721-787 | then its length is exactly max(width, sign + max(digits, precision)) |
| PrintfTheorems.LeftPrecisionFails | src/printf.c:261-271 | `%-5.3d` of 7 lacks the precision zeros |
| PrintfTheorems.HashFails | src/printf.c:275-280 | `%#4x` of 0x1234 prints 0x34 |
| PrintfPrecision.NegativePrecisionExact | src/printf.c:670-674 | integers without `#`: taking a negative `*` precision as 0 prints the standard's text of no precision if and only if the digits fit, the value is not 0 and no zero fill is lost |
| PrintfPrecision.NegativePrecisionAlternative | src/printf.c:670-674 | integers with `#`: the same for the alternative form, which must fit the buffer with its mark |
| PrintfPrecision.NegativePrecisionString | src/printf.c:827-851 | `%s`: the field is that of no precision if and only if the string is empty, or all blanks and no longer than the width |
| PrintfPrecision.NegativePrecisionFails | src/printf.c:670-674 | `%.*d` of 0 with -1 prints nothing where the standard's text is 0 |
| PrintfPrecision.NegativePrecisionStringFails | src/printf.c:670-674 | `%.*s` of abc with -1 prints nothing |
| PrintfFormat.FlagRun | src/printf.c:632-643 | flags are read up to the first character that is none |
| PrintfEngine.Atoi | src/printf.c:219-226 | the value of the digit run modulo 2^32, and the position behind the run |
| PrintfEngine.Strnlen | src/printf.c:202-207 | the length, or the limit if that is smaller |
| PrintfEngine.ParseDirective | src/printf.c:627-711 | flags, width, precision and length of a directive, from digits or `*` arguments, and the position of its conversion character; what these mean: WriteThenParse |
| PrintfEngine.UnsignedMagnitude | src/printf.c:758-767 | negating in unsigned arithmetic gives the magnitude, for the most negative value too |
| PrintfEngine.FormatSigned | src/printf.c:753-769 | sends the number text of the argument read at the width its length modifier says; which value that is: ArgumentRead |
| PrintfEngine.FormatString | src/printf.c:827-851 | sends the string cut at the precision, blanks before or after it up to the width |
| PrintfEngine.FormatChar | src/printf.c:807-825 | sends the character with blanks before or after it up to the width |
| PrintfFormat.Aligned | src/printf.c:807-851 | the length of a %c or %s field is max(width, text) |
| PrintfFormat.RenderStep | src/printf.c:618-631 | a rendered format is the text of its first item followed by the rendering of what is left of format and arguments |
| PrintfEngine.SendItems | src/printf.c:618-881 | the engine's loop, with index and sink, sends exactly the rendering of the format, to any output and any limit |
| PrintfEngine.Vsnprintf | src/printf.c:608-888 | the same with the closing NUL; the result is the rendered length; a null buffer is never written |
| PrintfSink.EmitToBuffer | src/printf.c:164-169 | the bounded sink keeps exactly the characters with index below the limit and writes nothing else |
| PrintfSink.EmitToConsole | src/printf.c:180-186 | the console sink shows every character except NUL |
| PrintfSink.WithoutNulIs | src/printf.c:180-186 | what is shown has no NUL, of a text without NUL is all, and of two texts is that of one and then the other |
| PrintfSink.Sink.Out | src/printf.c:164-186 | one character to buffer, console or nowhere |
| PrintfEngine.TruncatedMemory | src/printf.c:883-884 | memory after text and NUL: the first min(L, c - 1) characters, a NUL, and nothing else; nothing at all for c = 0 |
| PrintfEngine.Snprintf | src/printf.c:914-921 | truncation theorem, section 7.21.6.5 of C11: first min(L, c - 1) characters then NUL, no index at or above c written, result L for every c |
| PrintfEngine.Sprintf | src/printf.c:904-911 | the whole text and a NUL, nothing behind it |
| PrintfEngine.Printf | src/printf.c:893-901 | the console shows the text without NULs; the result counts them; the one-byte buffer is not written |
| PrintfTheorems.ParseDigits | src/printf.c:219-226 | `_atoi` on the decimal digits of a 32-bit value returns it, stops behind them, and no intermediate value exceeds it |
| PrintfTheorems.PrintThenParse | src/printf.c:219-226 | the output of `%u`, whatever non-digit follows, parses back to the value |
| PrintfConcat.SameItem | src/printf.c:627-711 | a directive is determined by its own characters, wherever they stand |
| PrintfConcat.ParseJoin | src/printf.c:618-881 | the items of two formats written as one are those of the first, then those of the second |
| PrintfConcat.RenderJoin | src/printf.c:608-888 | two formats in one print their two texts one after the other when the first uses up its arguments |
| PrintfWritten.WriteThenParse | src/printf.c:627-711 | writing flags, width, precision, length and conversion as a format and parsing it gives them back, for every directive |
| PrintfWritten.LoneDot | src/printf.c:662-676 | a dot without digits or `*` is a precision of 0 |
| PrintfWritten.OtherLengths | src/printf.c:695-708 | `t` and `z` are read as a long |
| PrintfReference.ArgumentRead | src/printf.c:753-784 | an argument is read as v if and only if it stands for v in two's complement, or unsigned, modulo 2^8 for hh, 2^16 for h, 2^32 for int and l, 2^64 for ll and j |
| PrintfReference.IntegerDirective | src/printf.c:721-787 | every integer directive, with its flags as characters: it takes one argument and prints the text that section 7.21.6.1 of C11 promises for the value passed, if and only if KeepsPromise |
| PrintfReference.PlainInteger | src/printf.c:753-784 | without flags, width and precision it always prints a minus sign for a negative value and the digits of the magnitude; base 2 of 64-bit values aside |
| PrintfReference.SignedWords | src/printf.c:761-767 | `%d`, `%i` and `%ld` of the 32-bit two's complement of v print v |
| PrintfReference.SignedQuads | src/printf.c:755-759 | `%lld` and `%jd` of the 64-bit two's complement of v print v |
| PrintfReference.SignedShorts | src/printf.c:766-767 | `%hd` and `%hhd` of any word that is v modulo 2^16 or 2^8 print v |
| PrintfReference.UnsignedWords | src/printf.c:778-782 | `%u`, `%x`, `%X`, `%o` and `%b` print the digits in base 10, 16, 8 and 2, in upper case for X only |
| PrintfReference.UnsignedShorts | src/printf.c:781 | `%hu` and `%hhu` print the low 16 and 8 bits |
| PrintfReference.UnsignedQuads | src/printf.c:772-775 | `%llu` and `%llx` print all 64 bits |
| PrintfReference.CharacterDirective | src/printf.c:807-825 | `%c` takes one argument and prints its low byte, with blanks behind it for `-`, else before it, up to the width |
| PrintfReference.StringDirective | src/printf.c:827-851 | `%s` takes one argument and prints it cut at the precision, a precision of 0 included, with blanks on the same side |
| PrintfReference.PointerText | src/printf.c:853-869 | `%p` prints eight hexadecimal digits in upper case |
| PrintfReference.OtherDirective | src/printf.c:871-879 | a percent sign, and every character that is no conversion, prints itself and takes no argument |
| PrintfReference.LiteralText | src/printf.c:620-625 | text without a percent sign prints itself |
| PrintfReference.StarWidth | src/printf.c:650-660 | a width passed as an argument is as one in the format; a negative one is its magnitude with the flag `-` |
| PrintfReference.StarPrecision | src/printf.c:670-674 | a precision passed that is not negative is as one in the format |
| HeapModel.PayloadsDisjoint | src/mem.c:14-38 | payloads lie in the heap, are pairwise disjoint and meet no header |
| HeapModel.Conservation | src/mem.c:9-29 | block sizes always add up to the same total, and a traversal takes at most heap / header steps |
| HeapModel.FirstFit | src/mem.c:18-36 | the first block from k on that is free and large enough; none before it is |
| HeapModel.MallocLowest | src/mem.c:14-38 | NULL exactly when no free block has the wanted bytes; else no fitting block lies lower than the result |
| HeapModel.MallocFails | src/mem.c:17-37 | malloc(n) with n + 12 < 2^32 gives NULL if and only if every free block has fewer than n + 12 bytes |
| HeapModel.MallocTakes | src/mem.c:17-33 | else the lowest free block of n + 12 bytes or more is handed out: cut to n + 12 when it has more than n + 24, with a free block of the rest directly behind it, else of its old size |
| HeapModel.MallocTiles | src/mem.c:14-38 | blocks stay in address order without gaps and at least a header long, unless a wrapped size splits a header |
| HeapModel.MallocGives | src/mem.c:32 | the result is the payload of a live block of at least the wanted bytes, the size plus a header modulo 2^32 |
| HeapModel.MallocRoom | src/mem.c:17-32 | a result other than NULL has room for the size asked for if and only if size plus header is below 2^32 |
| HeapModel.LargestSizeSplitsHeader | src/mem.c:17-30 | the largest size splits the header of a free block of more than 23 bytes |
| HeapModel.FreeIsFlag | src/mem.c:40-44 | freeing a payload changes that block's flag only |
| HeapModel.RunTiles | src/mem.c:14-44 | the block invariant holds in every state of every legal run of malloc and free |
| HeapModel.RunRefines | src/mem.c:14-44 | over every run, legal ones being the code's, no block boundary disappears and every block lies inside an earlier one |
| HeapModel.TooLargeForever | src/mem.c:14-44 | a request larger than every block fails in every later state |
| HeapModel.PayloadForever | src/mem.c:40-44 | a pointer that was ever a payload stays one, so a double free changes no structure |
| HeapModel.LiveStays | src/mem.c:14-44 | a live block keeps address and size over every run that does not free it |
| HeapModel.BytesStay | src/mem.c:14-44 | over every legal run of malloc, free and client writes into live payloads, each byte of a block that is not freed holds what was last written to it |
| HeapModel.Reuse | src/mem.c:14-44 | for every size that splits no header: after any run, freeing a block from malloc(n) lets malloc(n) succeed at an address no higher |
| Allocator.Heap.constructor | src/mem.c:8-12 | one free block that leaves the last 12 bytes of the heap out |
| Allocator.HeaderLayout | include/mem.h:14-20 | a block's header byte by byte: size, address of the next header or 0 behind the last, and a word that is 0 exactly when the block is in use |
| Allocator.Heap.Malloc | src/mem.c:14-38 | on bytes, for every 32-bit size: result and block list are those of the first fit, NULL exactly when all free blocks are smaller than n + 12 bytes if that does not wrap around, no byte outside the block found changes, nor any of the payload handed out, and the list survives if and only if no header is split |
| Allocator.Heap.Free | src/mem.c:40-44 | on bytes: NULL does nothing, else only the flag bytes before the pointer change |
| Allocator.Heap.Write | src/mem.c:32 | a client's write inside a live payload leaves the block list as it is |
| Allocator.SplitRepresents | src/mem.c:23-30 | the stores of a split leave headers that represent the split list |
| Allocator.TakenOutcome | src/mem.c:20-33 | memory after a block is taken holds a well-formed list if and only if no header was split |
| Allocator.ShortBlockBreaks | src/mem.c:28 | a header whose size field is below a header's size makes the memory hold no block list at all |
| MemoryOps.Memcpy | src/kernel/utils.c:157-175 | the word loop and the byte tail, on one memory, for every length and overlap |
| MemoryOps.ForwardCopy | src/kernel/utils.c:157-175 | for disjoint ranges and for dest <= src the effect is that of copying n original bytes, and nothing else changes |
| MemoryOps.CopyExact | src/kernel/utils.c:157-175 | memcpy copies right for every memory if and only if dest <= src, the ranges are apart, or n is one word |
| MemoryOps.OverlapLoses | src/kernel/utils.c:162-172 | for every other overlap, a memory that is copied wrong |
| MemoryOps.Memset | src/kernel/utils.c:149-155 | fills the range and changes nothing else |
| ElfLoader.Strcmp | src/string.c:3-9 | 0 exactly when the C string in memory is the given one |
| ElfLoader.FindTables | src/elf_loader.c:71-79 | the last symbol table and the last string table other than the section name table |
| ElfLoader.CheckEntryPoint | src/elf_loader.c:70-99 | true if and only if both tables exist and the first symbol whose value is the entry point is called sp_main |
| ElfLoader.LoadSegment | src/elf_loader.c:49-55 | the file bytes, then zeros up to memsz, and nothing else |
| ElfLoader.LoadedStep | src/elf_loader.c:42-56 | the next program header extends what is loaded, and leaves earlier segments alone |
| ElfLoader.LoadElf | src/elf_loader.c:25-60 | entered exactly when magic and entry point check pass; then each PT_LOAD segment is its file bytes and zeros and all other memory is unchanged; a rejected image changes nothing |
| ElfLayout.FileHeaderRead | include/kernel/elf32.h:8-23 | the fields of a file header that is written as its bytes in order |
| ElfLayout.ProgramHeaderRead | include/kernel/elf32.h:26-35 | type, offset, address, file size and memory size of a program header that is written as its eight words |
| ElfLayout.SectionHeaderRead | include/kernel/elf32.h:38-49 | type, offset and size of a section header that is written as its ten words |
| ElfLayout.SymbolRead | include/kernel/elf32.h:52-59 | name and value of a symbol that is written as its sixteen bytes |
| ElfLayout.LoadedLayout | src/elf_loader.c:41-56 | in terms of the program headers written in the image: after a load, the memory of each header of type 1 is its file bytes, then zeros up to its memory size; every other byte is unchanged |
| ElfLayout.ApartRead | src/elf_loader.c:41-56 | the segments may be loaded if and only if these headers place them in memory, apart from the image and each other, and their bytes in the image |
| ElfLayout.AcceptsExactly | src/elf_loader.c:76-96 | with the last section of type 2 and the last of type 3 that does not hold section names: the image is accepted if and only if the first symbol valued at the entry point is called sp_main |
| ElfLayout.RejectsExactly | src/elf_loader.c:81-98 | without a section of either kind it is rejected |
| Console.Screen.constructor | src/io.c:30-43 | an empty terminal |
| Console.Screen.DisplayBuffC | src/io.c:290-312 | printing appends to the text, a newline fills the row; each character printed has the foreground asked for on the background its cell had, and no other byte of the buffer changes |
| Console.Screen.WriteToCellC | src/io.c:206-215 | stores character and foreground of one cell, nothing else |
| Console.Screen.ClearScreen | src/io.c:103-120 | the text becomes empty, the window stays where it is; the character bytes of the rows of the text become 0, and no other byte changes |
| Console.Screen.ResetShell | src/io.c:89-101 | empty text, window at the top |
| Console.Screen.Backspace | src/io.c:123-151 | drops the last character unless the cursor is left of the margin |
| Console.Screen.GetHeight | src/io.c:493-495 | the number of rows up to the cursor |
| Console.Screen.ShiftBuffer | src/io.c:430-459 | refused moves change nothing; after others every byte of the buffer is that of `Moved`, for overlapping rows in both directions and for moves by less than a cell or onto themselves |
| Console.MovedApart | src/io.c:430-459 | a move by a cell or more brings every byte to its new place and leaves characters only there |
| Console.LiftStep | src/io.c:443-448 | one step of the backward copy of overlapping rows |
| Console.SinkStep | src/io.c:451-456 | one step of the forward copy of overlapping rows |
| Console.RowsMove | src/io.c:430-459 | moving the rows that hold the text keeps the text and leaves only blanks elsewhere |
| Console.Screen.ScrollUp | src/io.c:517-545 | one row further exactly while the cursor's row is below the window; text and attributes are kept, and the move is never refused |
| Console.Screen.ScrollDown | src/io.c:555-570 | one row back exactly while something is scrolled off; text and attributes are kept |
| Console.Screen.WindowShows | src/io.c:172-187 | window cell (row, column) holds text row `row - current_height` |
| Console.Screen.ShowBuffer | src/io.c:172-187 | video memory becomes the viewport of the text |
| ConsoleRuns.OffsetBounded | src/io.c:517-570 | over every run whose cursor stays within 262 rows, -237 <= current_height <= 0 |
| ConsoleRuns.UpThenDown | src/io.c:517-570 | scroll_down undoes every effective scroll_up |
| ConsoleRuns.DownThenUp | src/io.c:517-570 | scroll_up undoes scroll_down if and only if the window did not reach past the last row |
| ConsoleRuns.ScrollToEnd | src/io.c:517-545 | repeated scroll_up stops with the cursor's row in the window |
| ConsoleRuns.UpsShowCursor | src/io.c:517-545 | enough scroll_up brings the cursor's row into the window if and only if it is not above the window |
| ConsoleRuns.ScrollToTop | src/io.c:555-570 | enough scroll_down ends at the top, with the cursor's row in the window if and only if it is one of the first 25 |
| ConsoleRuns.StepStrands | src/io.c:103-151 | the cursor's row comes to lie above the window exactly by clearing a scrolled screen, or by taking back the first character of the window's first row |
| ConsoleRuns.RunStrands | src/io.c:103-570 | over every run, the cursor's row is never above the window if and only if no step of the run is of that kind |
| ConsoleRuns.StrandedShowsNothing | src/io.c:172-187 | with the cursor's row above it, the window is blank |
| ConsoleRuns.ClearedThenPrinted | src/io.c:103-120 | what is printed after a scrolled screen is cleared is not shown until it fills the rows scrolled off |
| ConsoleRuns.PrintedInParts | src/io.c:290-312 | printing two strings is printing their concatenation |
| ConsoleRuns.BackUndoesTyping | src/io.c:123-151 | backspace takes back the character just typed if and only if the cursor then stands at the margin or right of it |
| ConsoleRuns.PrintedKeeps | src/io.c:290-312 | printing never changes what was printed before |
| ConsoleRuns.RowHoldsLine | src/io.c:290-312 | lines shorter than a row, printed on an empty terminal, stand one to a row |
| ConsoleRuns.WindowShowsLines | src/io.c:172-187 | and window row r shows line r + offset |
| FatVolume.ClusterSectorValue | src/fat32.c:55-59 | the 32-bit sums give the sector of a cluster as the volume layout defines it |
| FatVolume.ClustersDisjoint | src/fat32.c:55-59 | distinct clusters share no sector, even where 32-bit sector numbers wrap around |
| FatVolume.EntryInFat | src/fat32.c:89-92 | the FAT entry of a covered cluster lies in the first FAT and in one sector |
| FatVolume.RootHoldsEntries | src/fat32.c:167-168 | the rounded-up root size holds all entries with less than a sector to spare |
| FatVolume.RegionsDisjoint | src/fat32.c:55-59 | first FAT, root directory and data area follow each other without overlap |
| FatVolume.RegionsShareNothing | src/fat32.c:55-59 | where sector numbers wrap around, the three still share no sector |
| FatReader.Reader.GetNextCluster | src/fat32.c:82-106 | the next cluster, or the end for clusters below 2, unreadable FAT sectors, end marks, free and bad entries |
| FatChain.NextIsEntry | src/fat32.c:82-106 | the next cluster is the little-endian entry of two bytes at offset 2 * cluster of the first FAT, and the end is an entry of 0, of 0xFFF7, of 0xFFF8 or more, or one that cannot be read |
| FatChain.LinkedChain | src/fat32.c:82-133 | clusters of which each has the next in its FAT entry, with an end behind the last, are the chain from the first of them |
| FatReader.Reader.ReadSector | src/fat32.c:122-129 | one sector's share of the bytes wanted, or nothing when the read fails |
| FatReader.Reader.ReadCluster | src/fat32.c:120-130 | the bytes of one cluster up to the size, or up to the first sector that fails |
| FatReader.Reader.ReadFileContent | src/fat32.c:109-136 | on every disk and FAT, cyclic chains included, it ends and writes exactly the file's content as far as it can be read, and no byte behind it |
| FatChain.FileBytes | src/fat32.c:55-136 | and then the file has min(size, bytes of these clusters) bytes: those of the sectors of the first, counted from cluster 2 behind reserved sectors, FATs and root directory, then those of the next |
| FatVolume.ContentLength | src/fat32.c:109-136 | with all its sectors readable the content has min(size, clusters of the chain * cluster bytes) bytes |
| FatVolume.ContentOfClusters | src/fat32.c:116-133 | the content is the prefix of the concatenated clusters, as many as the size needs |
| FatVolume.FailureLeavesPrefix | src/fat32.c:122-125 | what a read that fails somewhere writes is a prefix of what a disk that reads more gives |
| FatReader.DrainTakes | src/fat32.c:121-130 | taking sector by sector what is still wanted is taking a prefix of all sectors |
| FatDirectory.NameIs83 | src/fat32.c:260-267 | for every entry the coded name is the 8.3 name, case aside or not, if and only if Keeps83: an extension stands behind a base of eight characters and only there, and no byte is NUL or a leading 5 |
| FatDirectory.SearchBy83 | src/fat32.c:243-278 | searching for the 8.3 name of a visible entry finds that entry if and only if it is not passed over, Keeps83 holds, and none before it matches or ends the directory |
| FatDirectory.ShortBaseFails | src/fat32.c:260-267 | README.TXT is called README |
| FatDirectory.NoExtensionFails | src/fat32.c:260-267 | ABCDEFGH without extension is called ABCDEFGH with a dot behind it |
| FatDirectory.NameShape | src/fat32.c:260-267 | the coded name of every entry: padded base alone, or base, dot and extension when the base has eight characters without a NUL |
| FatSearch.BuildName | src/fat32.c:260-267 | the name buffer: trimmed base, dot, trimmed extension, NUL |
| FatSearch.TrimBlanks | src/fat32.c:266-267 | trailing blanks of a part become NULs, nothing else changes |
| FatSearch.Strcmpi | src/string.c:32-50 | 0 exactly for C strings that are equal up to the case of ASCII letters |
| FatDirectory.FoldExact | src/string.c:32-50 | characters are equal up to case if they are equal, or an upper-case letter and its lower-case one, and only then |
| FatSearch.InitFromBpb | src/fat32.c:34-43 | the geometry from the fields of the boot sector |
| FatChain.BootSectorRead | include/fat32.h:69-90 | the geometry is that of a boot sector written field by field |
| FatSearch.FindInSector | src/fat32.c:252-275 | one sector of the scan is sixteen steps of the flat search, or fewer at its end |
| FatSearch.FindFile | src/fat32.c:219-279 | the sector-by-sector scan finds exactly what the search over the flat directory finds; the entry is in the buffer |
| FatDirectory.SearchIsFirst | src/fat32.c:243-278 | the search returns entry j if and only if j is the first that matches among the first root_entry_count, before any end mark or unreadable sector |
| FatDirectory.EntryRead | include/fat32.h:93-107 | an entry written field by field is passed over if and only if its name starts with 0xE5 or an underscore or its attributes are 0x0F; it is listed when it is not and its size is not 0 |
| FatDirectory.EntryOnDisk | src/fat32.c:247-258 | entry 16 * q + j is the bytes from 32 * j of sector q behind the FATs; it stops the search when it cannot be read or starts with 0 |
| FatSearch.ListFiles | src/fat32.c:140-216 | prints exactly the visible entries of the flat directory with non-zero size, in order |
| FatDirectory.ListedExactly | src/fat32.c:176-215 | a name is listed if and only if an entry has it that is visible, not empty, among the first root_entry_count, and before any end mark and any unreadable sector |
| FatDirectory.ListedIsFound | src/fat32.c:140-279 | every name that is listed is found on the same disk, at an entry of that name |
| FatDirectory.FoundIsListed | src/fat32.c:140-279 | what is found is listed when it is not empty |
| TextWrap.LineEnd | src/gui/spui.cpp:411-426 | the end of a line: the last blank within the width, its first character aside, else the width or the end |
| TextWrap.RenderText | src/gui/spui.cpp:404-443 | the loop ends; its rows, 8 apart, are the lines of the wrapped text |
| TextWrap.WrapRebuilds | src/gui/spui.cpp:410-442 | the text is its lines with the skipped blanks between them; every line is within the width, and non-empty unless the width is 0 |
| TextWrap.WrappedOnce | src/gui/spui.cpp:410-442 | these conditions determine the lines |
| TextWrap.NextWordDoesNotFit | src/gui/spui.cpp:413-425 | the word behind a line and its blanks ends past the width, or just there at the end of the text |
| TextWrap.LaterLinesStartInk | src/gui/spui.cpp:438-441 | every line but the first starts with a character that is not blank |
| TextWrap.SplitsWord | src/gui/spui.cpp:415-425 | a line breaks inside a word if and only if no blank lies after its first character up to the one after the width |
| TextWrap.WordsStayWhole | src/gui/spui.cpp:410-442 | in a text whose words all fit the width, every line but the last ends at a blank if and only if the text is no longer than the width or has a blank after its first character up to the one after the width; no word is split under the same condition or at width 1 |
| TextWrap.LeadingBlankSplits | src/gui/spui.cpp:417-425 | one input on which that condition fails, and the split it leads to |
| TextWrap.RestOnOneLine | src/gui/spui.cpp:413-425 | the rest is one line if and only if it is shorter than the width, or as long and without a blank after its first character |
| TextWrap.ExactFitBreaks | src/gui/spui.cpp:413-425 | at width 5, ab cd is broken |
| TextWrap.ZeroWidth | src/gui/spui.cpp:410-442 | in a window less than a character wide, a text can be wrapped if and only if it is all blanks |
| FileTree.SplitString | src/kernel/utils.c:65-86 | the parts before the first dot and between the first two, and whether there is a second part |
| FileModel.FullNameExact | src/file.c:33-50 | name and extension make up the original name if and only if it has at most one dot |
| FileTree.FileSystem.constructor | src/file.c:62-67 | the list holds the root, which is the current directory |
| FileTree.FileSystem.CreateFile | src/file.c:20-53 | a file below the current directory, one level deeper |
| FileTree.FileSystem.AddFile | src/file.c:78-91 | appended at the end of the one list, with the next 512-byte extent; every link of the list and of the tree is kept |
| FileTree.FileSystem.AddDirectory | src/file.c:68-77 | the same without an extent |
| FileTree.FileSystem.SetCurrentDirectory | src/file.c:119-135 | exactly the new directory is marked; the walk up ends, and the prompt is the path from the root |
| FileModel.PathIsNames | src/file.c:123-131 | when no name on the way has an extension, the prompt is the names of the walk from the root, each behind a slash |
| FileTree.FileSystem.FindFile | src/file.c:140-162 | the list walk is the lookup in the tree, "/" included |
| FileTree.FileSystem.ListFiles | src/file.c:92-116 | the names printed are the listing of the tree |
| FileTree.FileSystem.ChangeDirectory | src/commands.c:34-55 | a step of a walk: the directory found becomes current; a plain file changes nothing; nor does a missing name, whose message depends on what a read through NULL gives |
| FileModel.StepWellFormed | src/file.c:20-135 | parents precede children by one level, and extents are numbered in list order, after every operation |
| FileModel.RunWellFormed | src/file.c:20-135 | and over every run, which leaves every file where it is |
| FileModel.ExtentsShared | src/file.c:80-82 | the extents of two files share bytes if and only if a multiple of 2^23 files lies between them |
| FileModel.ExtentsDisjoint | src/file.c:80-82 | so the extents of a tree of at most 2^23 files are disjoint |
| FileModel.FindFromCurrent | src/file.c:140-162 | from the current directory: the first child of that name anywhere in the list, and the root for "/" |
| FileModel.FindFails | src/file.c:140-161 | from any directory: nothing is found if and only if the name is not "/" and no child has it other than the current directory |
| FileModel.CurrentIsMissed | src/file.c:145-161 | from the root, the child that is the current directory is not found |
| FileModel.FoundFromThenOn | src/file.c:68-162 | what is found in a directory is still found there after every run that comes back to it |
| FileModel.AddThenFind | src/file.c:68-162 | an added file is found under its name, "/" included, if and only if the name was new there and has at most one dot |
| FileModel.AddThenEnter | src/commands.c:34-55 | what add_directory adds can be entered by cd under its name if and only if the name is new and has at most one dot; what add_file adds cannot be |
| FileModel.AddedExtent | src/file.c:68-91 | the k-th file added, from 0, is a file with the extent at 512 * k modulo 2^32; a directory added is a directory and takes no extent |
| FileModel.TwoDotsFail | src/file.c:33-50 | a.b.c is found as a.b only |
| FileModel.RootNameFails | src/file.c:140-143 | a directory called "/" is hidden by the root |
| FileModel.WalkIsPath | src/file.c:119-162 | cd along names from the root ends at a directory if and only if they are the names on its way from the root and each is the first of its name |
| FileModel.WalkRestarts | src/file.c:140-143 | in a walk, "/" starts over at the root |
| FileModel.ListedIffFound | src/file.c:92-162 | a name is listed if and only if it is found |

## Left out

- Floating-point conversions (%f, %e, %g) have no rendering in the model: a format that uses them has no text.
- printf with a missing or mistyped argument, a format that ends inside a directive, and output longer than an int: undefined in C, so excluded by preconditions.
- Negating the most negative integer is undefined in C; the model takes the wrap-around of the target.
- fctprintf, vprintf and vsnprintf: the same engine behind another entry.
- C strings passed by callers are values; where they lie in memory is not modelled, except in ElfLoader and the name buffers of FatSearch.
- The allocator's memory layout is exact, but alignment of headers and of word accesses is not modelled.
- Port and device code: disk transfers are a partial map from sectors to bytes, and what a failed read leaves in the buffer is not said; cursor moves, keyboard, mouse and VGA registers are not part of this model.
- FatVolume.RegionsDisjoint: the order of the regions requires that sector numbers of the volume stay below 2^32, as do EntryInFat and ClusterSectorValue; that they share nothing does not.
- The FAT reader assumes 512-byte sectors, one sector or more per cluster, and an output buffer apart from the sector buffer, as its callers ensure.
- get_partition_start and get_fat_table_start: single reads without a loop. Messages that fat32.c prints are not modelled.
- Loading an ELF image from disk: a fixed number of sector reads. The header tables, the first matching symbol and the segments of an accepted image must lie inside memory, apart from each other.
- ElfLoader.LoadElf: the value returned for a bad magic number is not said, as the code returns none.
- Console.Screen.Backspace: leaves the input buffer out.
- full_scroll and reset_scroll: not used on the live path. The console's text is bounded by 262 rows, behind which the code would leave its buffer.
- TextWrap.RenderText: requires a text of blanks when the window is less than a character wide, since for any other the loop does not end, and lines that fit the 100-byte buffer, because the window or the text is narrow enough.
- FileTree.FileSystem.constructor: fields of a new file start from zero and allocation succeeds; the code leaves some uninitialised and reads the current directory before there is one.
- FileTree.FileSystem.CreateFile: the parts of a name must fit the 20-byte token buffers, which the code does not check.
- FileTree.FileSystem.ChangeDirectory: assumes that the read through NULL, which the code makes for a missing name, yields some value; it is a parameter.
- The RAM disk behind the extents, window drawing, the shell, event lists, descriptor tables and process switching.
