# scratch-os: verified models

scratch-os is a small 32-bit x86 kernel: a boot loader, a page-frame allocator with
two-level page tables, a formatted printer, a sliding-picture puzzle drawn straight into a
screen buffer, and a pair of host tools that write one file into a disk image and read it
back. This project models those parts in Dafny, with the branches, constants and edge cases
of the C code, and proves what each part is for. `dafny verify dfyconfig.toml` checks it.

| file | models |
|---|---|
| `wrappers.dfy`, `bytes.dfy` | optional values; bytes, little-endian words, `uint32_t` arithmetic |
| `bitmap.dfy` | the block bitmap and its allocator (`lib/fs.c`) |
| `disk_fs.dfy`, `disk_extract.dfy`, `disk_round_trip.dfy` | writing a file into an image, reading it back, and when it comes back (`lib/fs.c`, `fs-test/`) |
| `disk_layout.dfy` | the image byte by byte, as the structures of `lib/fs.h` lie in it |
| `page_frames.dfy` | the free list, allocation and release of page frames (`kernel/page.c`) |
| `paging.dfy`, `paging_mmu.dfy` | the page walk and what `mm_continous_map` does to it, as values; the same in memory, whose stores go through the tables once paging is on (`kernel/page.c`) |
| `paging_runs.dfy`, `paging_boot.dfy` | what one mapping means; the two mappings of a boot, and when it gets through (`kernel/page.c`, `kernel/video.c`) |
| `paging_access.dfy` | access rights, and the table entries bit by bit (`kernel/page.h`) |
| `printfmt.dfy`, `printfmt_run.dfy`, `format_laws.dfy` | the formatter, as text and as it runs over a bounded buffer (`lib/printfmt.c`) |
| `format_table.dfy`, `parse_laws.dfy` | what each conversion prints, and each form of number reads as, on literal characters |
| `format_text.dfy` | escapes as they are written in a format, and numbers that come back through them (`lib/printfmt.c`, `lib/string.c`) |
| `strtol.dfy` | number parsing (`lib/string.c`) against the number printer |
| `memmove.dfy` | `memmove` and `memset`, with string instructions and as byte loops (`lib/string.c`) |
| `game.dfy`, `game_solve.dfy`, `game_run.dfy` | the puzzle's rules, that it can always be won, and its functions on mutable state (`kernel/game.c`) |
| `game_keys.dfy`, `frame_pixels.dfy` | the rules on literal scancodes; what a frame is, in bytes of the screen buffer |
| `video.dfy`, `puzzle_video.dfy`, `frame.dfy` | pixels, bars and borders; the puzzle on the screen; whole frames and the main loop (`kernel/video.c`, `kernel/game.c`) |
| `boot_layout.dfy` | the boot in plain numbers: places on the disk and in memory (`boot/main.c`, `inc/elf.h`) |
| `boot.dfy`, `boot_images.dfy` | loading the segments of the kernel image; what its headers decide about the boot (`boot/main.c`) |

Code that updates state is a class or a method with loops; each such method is proved against
a function or predicate on values, and the laws are lemmas about those. Where C has no defined
behaviour (an index past an array, a missing argument, signed overflow, a buffer `fread` did
not fill) the model returns an error value rather than ruling the input out; page faults and
a boot loader overwritten by its own load are outcomes too.

Each operation is also stated once in plain bytes and numbers (`disk_layout.dfy`,
`paging_access.dfy`, `boot_layout.dfy`, `game_keys.dfy`, `frame_pixels.dfy`, `format_table.dfy`,
`parse_laws.dfy`): offsets, magic numbers, scancodes and colours are written out there, and
nothing goes through the functions the code is proved against.

## Main results

* **When the file comes back.** `DiskRoundTrip.FormatThenExtract`: for every file content, name
  and stack garbage, formatting and extracting gives the same bytes exactly when the file has
  at most 119 blocks and the garbage in the uninitialised `dir` is harmless: slot 0 does not
  look full and every other slot has inode word 0 or names a block that reads as an empty
  inode, all of it stated on the arguments. (Or all 15 slots look full. Then the inode goes to
  byte 0xfffffe00, every slot reads it back from there, and the file comes back if it is empty,
  or one block whose length is the sum of their sizes and which repeats its own start at each
  slot's offset.) A zeroed `dir` is
  harmless for every file; one whose slot 1 names block 1 loses every file.
  At exactly 120 blocks the reader's index 120 is out of bounds by the array rule of C only:
  the inode's 512-byte block goes on with 0xcc (`DiskExtract.InodeTail`), so a program built
  without bounds checks would stop there.
* **The image is the one on disk.** `DiskLayout.FormatBytes`: every byte that `format.c` writes,
  bitmap, directory entry, inode and data at their offsets, for every content, name and stack
  garbage that leaves a slot free. `DiskLayout.OneFile`: from an image with one directory entry,
  wherever its inode and its blocks are, the reader outputs the bytes of those blocks.
* **The writer, for any bitmap.** With room, the file is in the image however fragmented the
  bitmap; when the disk fills up, 0xffffffff is used as a block number without a check
  (`fs-test/format.c:16-19`), and the file is in the image exactly when the blocks past the
  last clear one hold the same bytes; if there was no clear one to begin with, when they hold
  those of the inode, which goes to the same place.
* **Released frames are lost.** `release_page` leaves the list head as it was
  (`kernel/page.c:186-187`), so over every run frames come out strictly increasing, never
  twice, and the allocator serves exactly the frames free at the start. Pushing the page
  itself would conserve them.
* **What `mm_continous_map` maps.** Its tables are indexed by the physical start, filled from
  the virtual one and always from index 0, because the last of the three overlapping
  initialisers at `kernel/page.c:132` wins (section 6.7.9 of C11), so `pg_addr` starts at 0.
  The header comment at `kernel/page.c:101-104` promises physical-to-virtual ranges in general.
  That fails already for one page from 0 to 0x1000 (`PagingRuns.PromiseBroken`); on an empty
  directory it holds exactly when, with P and V the page numbers of the rounded starts and
  d = P / 1024, the pages from V on lie in the entries filled and 2V = P + 1024d (mod 2^20)
  (`PagingRuns.PromiseIff`). The range is mapped to itself exactly when the rounded virtual
  start is the 4 MB boundary at or below the rounded physical one, and nothing from its end on
  is mapped exactly when it ends within the first 4 MB.
* **When a boot gets through.** `init_page` turns paging on before `init_video` maps the video
  memory, so the stores of the second call go through the tables of the first
  (`PagingBoot.Boot`). It completes exactly when the kernel reaches past the first 4 MB and the
  frames taken next lie below the end of the last 4 MB it begins: the first of them if the video
  memory begins at most one directory entry after the kernel's (its tables then put the
  following ones in reach), all of them otherwise. Then the kernel is mapped to itself, and so
  is the video memory exactly when it starts on a 4 MB boundary, and everything mapped may be
  written and used by user code.
  A kernel that ends at 3 MB page-faults (`PagingBoot.BootSmallKernel`).
* **The formatter never leaves its format.** It ends on every format, reads no character past
  the NUL and calls itself at most one level deep, although unknown escapes move it backwards.
  `vsnprintf` keeps a prefix of the unbounded text and returns its length for every buffer size.
* **Numbers read back.** `strtol` gives back what `printnum` prints in every base, width and
  padding, exactly when the number fits a `long`. `FormatText.PrintThenParse` is the whole way:
  a `%d`, `%u`, `%x` or `%p` written with any pad flag, `#`, width, precision and `l`s, printed
  into a buffer of any size and parsed from there, gives the number back exactly when the buffer
  was large enough, the number fits a `long`, and what fills the width is zeros, or spaces with
  no sign or `0x` in front of them (or a single `-` before a 0).
* **The puzzle can always be won**, from every state, with at most one swap fewer than there are
  blocks once a pending selection is closed; and the win test, which only compares
  neighbours, succeeds exactly on the restored picture.
* **The screen shows the game**, byte for byte (`Frame.UpdateFrame`, `Frame.MainLoop`): the edge
  of a pending selection in ff 00 00, else the cursor's in 00 00 ff, else black within 3 pixels of
  a grid line, else the pixel of the block the cell holds; every other byte of the buffer is 0.
* **Booting an image.** `Boot.BootSafeImage`: every image with its program headers in the first
  page, whose segments spare them, the loader and its stack, ends in a jump, and each byte of
  memory and the jump target are given by the last load over them. For a good image
  (`Boot.BootGoodImage`), whose segments moreover come in order, are aligned with the file and
  spare the ELF header, that is its own entry point, with every byte of every segment in place,
  although loads spill.
* **What the headers decide.** Over all images with the same program headers: the jump goes to
  each one's own entry point exactly when the last load over the ELF header puts the start of the
  image back there, or the headers themselves fix both words and make them equal
  (`BootImages.EntryIff`); a segment byte is right exactly when the last load over it takes it
  from its own place in the image, or again the headers fix both bytes (`BootImages.SegmentByteIff`).
  One image with a segment for the scratch address jumps to 0 instead of 0x100000, one with two
  overlapping segments loads a byte of the first wrongly.

## Model

| member | source | states |
|---|---|---|
| Bitmap.LowestClear | lib/fs.c:48-55 | `mask & -mask` picks the lowest clear bit: clear itself, all lower ones set |
| Bitmap.WithBitAt | lib/fs.c:32-38 | setting a bit gives that bit the value and leaves the other seven alone |
| Bitmap.AllocRunSmallest | lib/fs.c:45-61 | k allocations hand out the k smallest clear blocks in increasing order, mark exactly those, none equal to the inode sentinel |
| Bitmap.AllocFailsIffFull | lib/fs.c:45-61 | 0xffffffff comes back exactly when no bit is clear, and then nothing changes |
| Bitmap.AllocRunOver | lib/fs.c:45-61 | past the last clear block every further allocation fails |
| Bitmap.BlockBitmap.GetBit | lib/fs.c:27-30 | reads the flag of a block |
| Bitmap.BlockBitmap.SetBit | lib/fs.c:32-38 | the bitmap afterwards differs in that one flag |
| Bitmap.BlockBitmap.AllocBlk | lib/fs.c:45-61 | one in-place allocation is one allocation step on the flags |
| DiskFs.NamedWraps | fs-test/format.c:18 | the byte offset of a block number is a `uint32_t`, so the block it names is taken modulo 2^23 |
| DiskFs.AllocFileInDir | lib/fs.c:65-80 | takes the first slot whose inode is not ~0, writes name, inode and size there; with no such slot changes nothing and returns ~0 |
| DiskFs.WithSlotFields | lib/fs.c:72-75 | the slot reads back as written and every other slot is untouched |
| DiskFs.WriteBlock | fs-test/format.c:19-20 | a block write reads back, and every other complete block is unchanged |
| DiskFs.LastWriteWins | fs-test/format.c:16-22 | of the blocks written to one place the last is found there |
| DiskFs.WriteFile | fs-test/format.c:3-29 | for any bitmap and directory: what is written where, block by block; out of bounds exactly past 120 blocks |
| DiskFs.RoomWritten | fs-test/format.c:15-28 | with room for inode and data the blocks are the smallest clear ones, the inode lists them, the data is there padded to blocks, other blocks are kept |
| DiskFs.FullDiskIff | fs-test/format.c:16-19 | for every bitmap: the inode is in the image, and the file if and only if there is room, or the blocks that share the place 0xffffffff names hold the same bytes (those of the inode if no bit was clear) |
| DiskFs.PrefixRun | fs-test/format.c:37-47 | with the first m blocks taken, allocation continues from m consecutively |
| DiskFs.Format | fs-test/format.c:31-58 | the whole image, for any garbage in `dir`: bitmap marking exactly the blocks in use, directory, inode, data, length |
| DiskFs.ImageFormatted | fs-test/format.c:52-57 | bitmap and directory written in front leave the file's blocks alone |
| DiskExtract.Extract | fs-test/extract.c:3-34 | the slot and inode loops output what the image says, including every way of reading past it |
| DiskExtract.FileReads | fs-test/extract.c:20-29 | a file reads back from its inode wherever its blocks are, up to 119 blocks |
| DiskExtract.InodeTail | lib/fs.h:16-22 | past its 120 words the inode's block goes on with sentinels |
| DiskExtract.WalkSilent | fs-test/extract.c:20-29 | nothing comes out of a block read as an inode if and only if it starts with the sentinel, or the size is 0 and one block is listed |
| DiskLayout.FormatBytes | fs-test/format.c:31-58 | the image byte by byte: 131072 bytes of bitmap, the name at 32 + 32i of block 256, size and inode word 257 behind it, the block list at block 257 and 0xcc after it, data from block 258 on |
| DiskLayout.EmptyRoot | fs-test/extract.c:13-14 | if the words at 131132 + 32i are all 0 nothing comes out |
| DiskLayout.ShortImage | fs-test/extract.c:5-14 | nor out of an image that ends before the first of them |
| DiskLayout.OneSlot | fs-test/extract.c:13-22 | with one such word set, the block it names is read as an inode under the size in front of it; past the image that fails |
| DiskLayout.OneFile | fs-test/extract.c:16-29 | then the output is the bytes of the blocks that inode lists, up to the size |
| DiskRoundTrip.UsualBlock | fs-test/extract.c:13-29 | which blocks of a formatted image read as an empty inode |
| DiskRoundTrip.LateSlotFails | lib/fs.c:69 | if slot 0 looks full and a later one does not, extraction reads past the image |
| DiskRoundTrip.FullRoundTrip | lib/fs.c:78 | if all slots look full the file comes back exactly when it is empty, or one block as long as the sizes together that repeats its start at each slot's offset |
| DiskRoundTrip.RoundTripIff | README.md:18-25 | extracting a formatted image gives the content if and only if it has at most 119 blocks and the garbage is harmless |
| DiskRoundTrip.FormatThenExtract | README.md:18-25 | the two programs in a row, for all contents, names that fit and stack garbage |
| DiskRoundTrip.EmptyDirHarmless | fs-test/format.c:45 | a `dir` with no other slot in use, a zeroed one for example, is harmless for every file |
| DiskRoundTrip.StrayDirLoses | fs-test/format.c:45 | a `dir` whose slot 1 names block 1 loses every file |
| DiskRoundTrip.SameInodeDir | fs-test/format.c:45 | one whose slot 1 names the file's own inode loses those of more than one block |
| PageFrames.RoundUpIsCeiling | kernel/page.c:45-49 | the least page boundary not below the address, wrapping to 0 at the top |
| PageFrames.InitialIs | kernel/page.c:19-43 | 128 MB are 32768 frames, free from the kernel's end on in increasing order |
| PageFrames.FrameAllocator.constructor | kernel/page.c:70-81 | the list holds the frames from the first free one up, in order, NULL-terminated |
| PageFrames.FrameAllocator.AllocPage | kernel/page.c:156-172 | pops the head; panics exactly on an empty list or a head in use; while the list is sound the in-use test never fires and the list stays sound |
| PageFrames.FrameAllocator.ReleasePage | kernel/page.c:177-189 | drops one reference, wrapping at 0; the list is unchanged as written and stays sound exactly unless the frame was on it; with its last reference gone a page on the list ties it into a ring |
| PageFrames.StrayRelease | kernel/page.c:167-183 | after a release the next allocation panics exactly when no frame is free or the one released was the next in line |
| PageFrames.RunShape | kernel/page.c:156-189 | on every run the free list is sound, is what is left of the initial one, and each held frame is held once |
| PageFrames.FramesNeverReused | kernel/page.c:156-189 | frames come out strictly increasing, never twice, and allocation works exactly until the initially free frames are used up |
| PageFrames.ReleasedFramesLeak | kernel/page.c:177-189 | free + held + number of releases is constant over every run |
| PageFrames.StepConservesIff | kernel/page.c:177-189 | free + held is kept by an operation exactly unless it releases the last reference |
| PageFrames.PushingConserves | kernel/page.c:185-188 | with the page itself pushed, free + held is constant over every run and no frame is both |
| Paging.WalkByPage | kernel/page.h:34-45 | the page number decides the walk, the offset is kept |
| PagingMmu.Mmu.StoreEntry | kernel/page.c:129-148 | a store goes to the frame the live tables name, to no memory if that is beyond RAM, or faults |
| PagingMmu.Mmu.FillTable | kernel/page.c:129-142 | the table's present entries and their frames, all other entries clear; a fault exactly when its frame is not mapped |
| Paging.RoundBuilds | kernel/page.c:125-149 | one round: the next free frame becomes a table, or the frames are used up, or table or directory is out of reach |
| PagingMmu.Mmu.ContinuousMap | kernel/page.c:105-150 | takes one frame per directory entry in free-list order and describes every word of memory afterwards; completes exactly when the frames suffice and, with paging on, each table and the directory are mapped when their turn comes |
| Paging.WalkMapped | kernel/page.c:125-149 | the page walk at every address of the directory entries written |
| Paging.WalkElsewhere | kernel/page.c:145-148 | the walk elsewhere is unchanged if its table was not overwritten |
| PagingAccess.WalkIsAccess | kernel/page.h:34-45 | directory index, table index and offset of an address are its upper 10, middle 10 and lower 12 bits |
| PagingAccess.WordsWritten | kernel/page.c:129-148 | the 32-bit words written: frame and the bits p, rw, us in a table, 0 behind them; a directory entry gets the same bits and keeps the other nine |
| PagingAccess.MappedOpen | kernel/page.c:134-147 | a call keeps every present entry writable and open to user code |
| PagingAccess.CallIs | kernel/page.c:108-137 | the entries and pages of a call, in plain numbers |
| PagingRuns.IdentityIff | kernel/page.c:108-137 | the range is mapped to itself if and only if the rounded virtual start is the 4 MB boundary at or below the rounded physical start |
| PagingRuns.EntryIsIdentity | kernel/page.c:132-142 | then every entry the call makes present is an identity entry |
| PagingRuns.PastEndIff | kernel/page.c:125-142 | nothing at or past the end is mapped if and only if the range ends below 4 MB |
| PagingRuns.LaterMapKeeps | kernel/page.c:125-149 | a later call keeps every translation outside its directory entries, as its tables come from the free list |
| PagingRuns.TablesStayHeld | kernel/page.c:125-149 | page tables in use are never on the free list |
| PagingRuns.PromiseIff | kernel/page.c:101-137 | on an empty directory the physical range is mapped to the virtual one if and only if the pages from V on lie in the entries filled and 2V = P + 1024d (mod 2^20) |
| PagingRuns.PromiseBroken | kernel/page.c:101-104 | one page from 0 to 0x1000 is not mapped there: 0 is, to 0x1000 |
| PagingRuns.PromiseKeptElsewhere | kernel/page.c:101-104 | a range that is mapped as promised without being mapped to itself |
| PagingBoot.InitPage | kernel/page.c:59-99 | exactly which pages are mapped, all to themselves, when paging is turned on; which frames are left; panics exactly when too few |
| PagingBoot.AllInReach | kernel/page.c:125-148 | when all tables of the second call, and the directory, are in reach in time |
| PagingBoot.InitVideo | kernel/video.c:48-60 | the second mapping, made with paging on: completes exactly when `Boots` holds; then the kernel's identity mapping is kept, the video memory has one exactly from a 4 MB boundary on, and all of it is writable and open to user code |
| PagingBoot.Boot | kernel/main.c:23-24 | a boot completes if and only if `Boots` holds of the kernel's end and the video range, runs out of frames only when they do not suffice, and page-faults otherwise; both mappings are writable and open to user code |
| PagingBoot.BootsIs | kernel/main.c:23-24 | that condition in plain numbers |
| PagingBoot.BootSmallKernel | kernel/main.c:23-24 | a kernel that ends at 3 MB page-faults mapping an 800 x 600 screen |
| PrintFmtRun.SprintBuf.Put | lib/printfmt.c:263-268 | counts every character, stores it while there is room, touches nothing else |
| PrintFmt.DigitTable | lib/printfmt.c:49 | the digits are the entries of the source's table |
| PrintFmtRun.SprintBuf.PrintNum | lib/printfmt.c:36-50 | padding then digits, as one text |
| PrintFmtRun.SprintBuf.PrintString | lib/printfmt.c:175-188 | the text of %s: precision, masking, and padding on the side the flag chooses |
| PrintFmtRun.Strnlen | lib/string.c:22-29 | the smaller of length and limit |
| PrintFmtRun.ScanFlags | lib/printfmt.c:104-156 | the part of the switch that goes back to reswitch, without leaving the format |
| PrintFmtRun.RunEscape | lib/printfmt.c:98-242 | one escape, with the rewind of unknown ones and the nested call of %e |
| PrintFmtRun.VPrintFmt | lib/printfmt.c:83-244 | ends on every format, never reads past its NUL, emits the text of the format or reports undefined behaviour |
| PrintFmtRun.VSNPrintF | lib/printfmt.c:271-285 | the buffer holds the longest prefix of the text that fits and a NUL, nothing else changes, the count is the full length for every n |
| FormatLaws.UnknownEscapeEchoed | lib/printfmt.c:237-241 | an unknown escape is echoed from its % up to the next % or the end, whatever flags and arguments it used |
| FormatLaws.LiteralRun | lib/printfmt.c:92-96 | text up to the next % is copied |
| FormatLaws.PaddedLength | lib/printfmt.c:36-50 | a number fills max(width, digits) |
| FormatLaws.StringWidth | lib/printfmt.c:175-188 | %s fills max(width, min(length, precision)); the flag chooses the side |
| FormatLaws.ErrorTexts | lib/printfmt.c:164-172 | %e prints the message of its table or "error" and the code |
| FormatLaws.LiteralAgrees | lib/printfmt.c:83-244 | the text from a point on depends on the arguments not yet used only |
| FormatLaws.ErrorSignIgnored | lib/printfmt.c:15-19 | a code and its negation print alike |
| FormatLaws.DecimalRoundTrip | lib/printfmt.c:191-198 | %d, of any length, reads back if and only if the number fits a long and no spaces follow the sign |
| FormatLaws.PointerRoundTrip | lib/printfmt.c:215-221 | %p reads back with base 0 if and only if it fits a long and only zeros follow 0x |
| FormatLaws.DashPadding | lib/printfmt.c:43-46 | numbers padded under the - flag read back, in every base, if and only if they fit a long and there was nothing to pad (or zero behind one dash) |
| FormatLaws.DashNegative | lib/printfmt.c:191-198 | negative ones if and only if they fit and there was nothing to pad |
| FormatTable.SignedWord | lib/printfmt.c:191-198 | %d and %ld print a 32-bit word in two's complement |
| FormatTable.SignedLong | lib/printfmt.c:191-198 | %lld prints a 64-bit one, all but -2^63 |
| FormatTable.UnsignedWord | lib/printfmt.c:201-231 | %u, %lu, %x and %lx print it as it is |
| FormatTable.UnsignedLong | lib/printfmt.c:201-231 | so do %llu and %llx |
| FormatTable.WordConversions | lib/printfmt.c:158-236 | %p, %c, %o and %% |
| FormatTable.StringConversion | lib/printfmt.c:175-188 | %s, and "(null)" for NULL |
| FormatTable.WrongArguments | lib/printfmt.c:53-81 | an argument missing or of the wrong width or kind has no defined text |
| FormatTable.DigitsAre | lib/printfmt.c:36-50 | the digits of a number are worth it, below the base, with no 0 in front |
| FormatTable.Messages | lib/printfmt.c:22-30 | the texts of %e, for codes and their negations |
| FormatTable.NoMessage | lib/printfmt.c:164-172 | a code that cannot be negated, or none, has no defined text |
| FormatTable.StringChars | lib/printfmt.c:175-188 | every character of %s under every flag, width and precision |
| FormatTable.NumberChars | lib/printfmt.c:36-50 | every character of a number: pad characters, then digits |
| FormatTable.StarWidth | lib/printfmt.c:137-139 | a * takes the width from the arguments |
| FormatText.FlagsOfText | lib/printfmt.c:98-156 | an escape anywhere in a format means the pad flag, #, width, precision and l count it was written with |
| FormatText.ZeroPrecision | lib/printfmt.c:113-136 | a 0 that starts a precision is taken for the pad flag, and alone is no precision |
| FormatText.TextPrints | lib/printfmt.c:92-232 | so it prints what its conversion makes of those, and the rest of the format follows |
| FormatText.ConversionReadsBack | lib/printfmt.c:190-232 | a printed number is read back to its end if and only if `ReadsBack` holds of it, its width and its padding; none is printed for -2^63 |
| FormatText.PrintThenParse | lib/string.c:238-282 | through a written escape, the buffer of vsnprintf and strtol: the same number if and only if the count is below the buffer's size and `ReadsBack` holds |
| StrTol.Strtol | lib/string.c:238-282 | blanks, sign, prefix and digits, for any base; undefined exactly on overflow of long |
| StrTol.StrtolUndoesPrintnum | lib/string.c:238-282 | parsing printed digits in the same base gives the number and the end of the text, for every base 2..16, width and space or zero padding, if and only if it fits a long |
| StrTol.DigitsRead | lib/string.c:262-277 | digits read as the number they print, from any position |
| ParseLaws.DigitIs | lib/string.c:264-271 | the digits are 0 to 9 and letters of either case |
| ParseLaws.DigitStep | lib/string.c:262-277 | reading stops at the first character that is no digit of the base; before it each digit counts in, up to 2147483647 |
| ParseLaws.BlankSkipped | lib/string.c:245-246 | spaces and tabs in front are skipped |
| ParseLaws.SignRead | lib/string.c:249-252 | a + means nothing, a - negates |
| ParseLaws.BaseRead | lib/string.c:255-260 | base 0 is 16 behind 0x, 8 behind another 0, 10 otherwise |
| ParseLaws.HexPrefix | lib/string.c:255-256 | base 16 passes over 0x |
| ParseLaws.CaseIgnored | lib/string.c:266-269 | text reads the same with its letters in the other case, but for the x of a prefix |
| ParseLaws.LongRange | lib/string.c:238-282 | decimal text reads up to 2147483647 |
| MemMove.MemmoveAsm | lib/string.c:139-167 | the destination gets the old source for every overlap and alignment, no other byte changes |
| MemMove.MemmovePortable | lib/string.c:185-203 | the byte loops give the same memory |
| MemMove.Memset | lib/string.c:121-137 | word and byte fills give the same memory |
| MemMove.JoinDown | lib/string.c:147-155 | copying back to front in pieces is one move when the destination lies after the source |
| MemMove.JoinUp | lib/string.c:158-164 | copying front to back in pieces is one move unless the destination starts inside the source |
| MemMove.ForwardIsMoveIff | lib/string.c:147 | on the overlaps the code sends backwards a forward copy would be right if and only if the source repeats with that distance |
| Game.StepKeeps | kernel/game.c:71-100 | every key keeps the blocks a permutation and cursor and selection on the grid |
| Game.SortedIffRestored | kernel/game.c:103-115 | for a permutation, neighbours in order if and only if every block is in its place |
| Game.PlayIs | kernel/game.c:145-153 | the loop leaves at the first key after which the picture is restored, and only then |
| GameSolve.MoveTo | kernel/game.c:89-98 | the wrapping cursor reaches every position and changes nothing else |
| GameSolve.SwapCells | kernel/game.c:75-87 | any two cells can be exchanged with one swap |
| GameSolve.Winnable | kernel/game.c:145-153 | from every state some keys win, with at most nr_block - 1 swaps and one more for a pending selection |
| GameRun.InitialInv | kernel/game.c:134-143 | the reversed start is a permutation |
| GameRun.GameState.UpdateGameState | kernel/game.c:70-100 | one key on the mutable state is one step of the rules |
| GameKeys.KeyMoves | kernel/game.c:89-98 | 0xE04B, 0xE04D, 0xE048, 0xE050 move the cursor left, right, up, down, around the edges, and change nothing else |
| GameKeys.SpaceSelects | kernel/game.c:75-87 | 0x39 selects the cell under the cursor, or exchanges it with the selected one |
| GameKeys.OtherKeys | kernel/game.c:71-92 | any other code changes nothing |
| GameKeys.KeysUndo | kernel/game.c:89-98 | left undoes right, up undoes down, and the other way round, from every state |
| GameKeys.SpaceTwice | kernel/game.c:75-87 | selecting and releasing a cell leaves the blocks alone |
| GameKeys.StartIs | kernel/game.c:122-141 | the start: blocks of 100 by 100 pixels in reverse order, cursor at 0, nothing selected |
| GameRun.GameState.CheckValid | kernel/game.c:102-115 | true if and only if the picture is restored |
| Video.Screen.DrawPixelBgr | kernel/video.c:89-98 | three bytes of one pixel if it is on the screen, no other byte |
| Video.RowColSplit | kernel/video.c:93 | a pixel's offset determines its row and column |
| Video.DrawnOver | kernel/video.c:89-98 | drawing twice draws the second image over the first |
| FramePixels.DrawnPixel | kernel/video.c:93-96 | a pixel's bytes lie at y * pitch + 3x, blue, green, red |
| FramePixels.DrawnElsewhere | kernel/video.c:92-96 | bytes of no pixel stay |
| Video.Screen.DrawColumn | kernel/video.c:136-145 | a bar centred on x, clipped to the screen |
| Video.Screen.DrawRow | kernel/video.c:147-156 | a bar centred on y, clipped to the screen |
| Video.Screen.DrawBorder | kernel/video.c:158-185 | the rectangle minus its inside, for odd and even thickness, when the thickness fits |
| Video.BorderIff | kernel/video.c:158-185 | the four bars are that border if and only if none sticks out |
| PuzzleVideo.GetColor | kernel/video.c:119-124 | packing and unpacking a colour gives the picture's three bytes |
| PuzzleVideo.DrawPuzzle | kernel/game.c:32-47 | each cell shows the block its permutation entry names, byte for byte |
| PuzzleVideo.RestoredShowsPicture | kernel/game.c:33-47 | with every block in place the puzzle is the picture on the grid |
| Frame.UpdateFrame | kernel/game.c:27-68 | every byte of a frame: selection's edge, else cursor's edge, else grid lines, else the block's pixel, else 0 |
| Frame.MainLoop | kernel/game.c:145-163 | leaves exactly when the rules say, and then every byte of the screen is the whole picture's; until then it is the frame of the state reached |
| Frame.WonFrameShowsPicture | kernel/game.c:145-150 | between lines and cursor the frame of a won game already shows the picture |
| Boot.ReadSeg | boot/main.c:73-98 | whole sectors from the rounded start, nothing else; runs over the loader or the stack in use exactly when the sectors meet them or the address wraps |
| Boot.LoadSegments | boot/main.c:51-58 | each round loads the header it finds in memory at its turn |
| Boot.BootMain | boot/main.c:39-69 | refused exactly when the image does not start with 7f 45 4c 46; segment loop, entry point taken from memory as loaded |
| BootLayout.SafeIsElf | boot/main.c:48 | a safe image starts with those four bytes |
| BootLayout.HeadersAre | inc/elf.h:6-33 | where on the disk the segments' addresses, sizes and offsets are |
| BootLayout.HeaderPageAt | boot/main.c:44-45 | the first 4096 bytes of the image go to 0x10000 |
| BootLayout.LoadIs | boot/main.c:73-98 | one load, byte by byte |
| BootLayout.TameIs | boot/main.c:73-98 | it spares the loader exactly when its sectors have no byte of 0x7c00 to 0x7dff or of the stack in use, and its loop ends |
| Boot.HeaderPageIsImage | boot/main.c:44-45 | the first load puts the image's first page at the scratch address |
| Boot.LoadsInOrder | boot/main.c:51-58 | with the headers spared each byte is as the last load covering it leaves it |
| Boot.SafeNeverLost | boot/main.c:54-58 | then no load runs over the loader, so every header is visited |
| Boot.BootSafeImage | boot/main.c:39-69 | booting an image that spares its headers and the loader ends in a jump; every byte of memory and the target are those of the last load over them, read off the image |
| Boot.IncreasingOrder | boot/main.c:87-88 | segments in increasing order spare one another |
| Boot.SegmentsLoaded | boot/main.c:87-88 | segments in order hold exactly their image bytes after the whole boot |
| Boot.BootGoodImage | boot/main.c:39-69 | booting an image whose segments come in order and spare its headers, the loader and its stack always jumps to its e_entry, with every byte of every segment in place |
| BootLayout.BootKernel | boot/main.c:39-69 | the same in plain numbers: byte k of segment i at p_pa + k, taken from byte 512 + p_offset + k of the disk, and a jump to the word at 536 |
| BootLayout.HighImageIsGood | boot/main.c:86-88 | an ELF file with its headers in the first page and its segments in increasing order from 1 MB on is a good image |
| BootImages.SameHeadersIff | boot/main.c:48-57 | two images list the same segments if and only if they agree on the bytes the loader finds them by |
| BootImages.EntryIff | boot/main.c:60-62 | over all images with the same headers: the jump goes to e_entry if and only if the word jumped to is e_entry, or the headers fix both words and make them equal |
| BootImages.EntryOwn | boot/main.c:60-62 | it is e_entry itself if and only if the last load over the ELF header starts there and at the image's start |
| BootImages.EntryLost | boot/main.c:60-62 | an image that spares its headers, its one segment in place, but with 0 for a jump target and not its e_entry |
| BootImages.BootStrayImage | boot/main.c:60-62 | booting that image jumps to 0 |
| BootImages.SegmentByteIff | boot/main.c:86-97 | over all images with the same headers, in any order and alignment: a segment byte is right if and only if the last load over it takes it from its own place, or the headers fix both bytes and make them equal |
| BootImages.SegmentByteLost | boot/main.c:83-97 | an image of aligned segments, the second spilling over the first, with a wrong byte |

## Left out

- Port I/O, inline assembly outside `lib/string.c`, control registers, descriptor tables, interrupts, the serial port and `boot/boot.S`: hardware effects.
- stdio: files are byte sequences with a position; a write past the end leaves zeros. `putbm`, `printf` messages and the unused `fs_get_blk_sz` are not modelled.
- More than one file per image: `lib/fs.c:69` takes the first slot that is not ~0, so a second file would take slot 0 again.
- DiskRoundTrip.FormatThenExtract: where the reader goes past the image, C goes on with a stale buffer; the model reports an error instead of the output.
- DiskFs.Format: the file name must fit its 24 bytes, as `strcpy` demands.
- Varargs: arguments are a typed sequence; a missing or mistyped one is reported as undefined behaviour. Widths and precisions are unbounded integers, so `int` overflow in them is not modelled.
- FormatLaws.StringWidth: assumes strings shorter than 2^31, as in a 32-bit address space.
- PrintFmtRun.VPrintFmt: the only sink modelled is the buffer of `vsnprintf`; `serial_printf` counts its characters the same way.
- `strlen`, `strcpy`, `strcmp`, `strncmp`, `strchr` and the other one-loop routines of `lib/string.c`.
- PageFrames.FrameAllocator.constructor: pointers into `page_pool` are indices; the pool itself lies below the frames handed out.
- PagingMmu.Mmu.ContinuousMap: memory is frames of table entries seen through their bit fields, so table frames are always within the 128 MB modelled; with paging on only the live directory, and ranges mapped to themselves or beyond RAM, as `init_video` has it.
- PagingMmu.Mmu.FillTable: the frame filled is not one of the live tables, which would move under the loop that fills it.
- PagingBoot.InitVideo: the same video ranges as PagingBoot.Boot.
- The TLB: the walk always reads memory. The second call of a boot only makes directory entries present, or replaces a table by one with the same translations.
- PagingBoot.Boot: the kernel ends in RAM, and the video memory starts on a 4 MB boundary above it or anywhere beyond RAM. The kernel's own code, data and stack are not accesses of the model; where a boot gets through they are all mapped.
- The 32-bit keyboard controller: keys are an arbitrary sequence.
- GameRun.GameState.constructor: the picture has at least one block in each direction, since C has no zero-length array.
- Video.Screen.constructor: the pitch covers a line and the buffer covers the screen.
- `update_screen` (one `memcpy`) and `kernel/text.c` (marked abandoned).
- PuzzleVideo.DrawPuzzle: the picture is a value, since nothing writes to it.
- Boot.ReadSect: the disk controller; a sector past the end of the disk reads as zeros.
- Boot.BootMain: how deep the loader's stack goes is not fixed by the source; it is a parameter, and everything is proved for every depth.
- Zeroing the part of a segment past its file size: the loader reads all `p_memsz` bytes from the disk.
