# ELF address space and stack string pushing, in Dafny

This project models two pieces of an early pwntools.

- **The `ELF` class** (`pwnlib/elf.py`). An image is a table of program headers (segments),
  a table of section headers, the file bytes behind a copy-on-write mapping, and the
  `symbols`, `plt`, `got` and `libs` maps. The model covers how those maps are built at
  load time and how the base `address` is derived. It also covers the `address` setter,
  which rebases every address-valued field. Translation between file offsets and virtual
  addresses is modelled, with its inclusive range tests, along with the flag filters, the
  occurrence search and reading and writing through the mapping.
- **`pushstr`** (`pwn/shellcode/misc/pushstr.py`). It optionally appends a NUL and pads the
  string to whole 4- or 8-byte words with a sign-dependent fill byte. Each word then gets
  one of three instruction shapes. Instructions are values (`PushStr.Insn`), not assembly
  text. A small 32-bit stack machine (`StackMachine`) serves as an independent account of
  what the i386 output does. Where the code departs from what it evidently means (see
  Findings), the model keeps the code as written (`PushStringAsWritten`) beside a corrected
  encoder (`PushString`).

Modules: `Wrappers` (Option/Result), `Scan` (first index satisfying a predicate), `Bytes`
(bytes, little-endian words, xor), `Segments`, `Stream` (the mapping as bytes plus a
position, following CPython's `mmap`), `Tables` (sections, relocations, `got`/`plt`,
`symbols`), `Elf` (image, load, rebase, search, read, write), `ElfProps` (lemmas across
operations), `PushStr`, `StackMachine`, `Amd64Props`.

Every operation is a pure function of its inputs. The decoded header tables, the file
bytes, the library map returned by `ldd` and the `xor_pair` helper are parameters.

## Model

| member | source | states |
|---|---|---|
| Segments.OffsetToVaddr | pwnlib/elf.py:210-217 | `None` exactly when no segment's inclusive file range `[p_offset, p_offset+p_filesz]` holds the offset; otherwise the address is `p_vaddr + (offset - p_offset)` of the first segment, in table order, whose range holds it |
| Segments.VaddrToOffset | pwnlib/elf.py:235-242 | `None` exactly when no segment's inclusive memory range holds the address; otherwise the offset is `p_offset + (address - p_vaddr)` of the first segment whose range holds it |
| Segments.FileSegment | pwnlib/elf.py:210-214 | the segment picked is the first, in table order, whose inclusive file range holds the offset; `None` when none does |
| Segments.MemorySegment | pwnlib/elf.py:235-239 | the segment picked is the first whose inclusive memory range holds the address; `None` when none does |
| Segments.ExecutableSegments | pwnlib/elf.py:114-117 | a segment is listed exactly when it is in the table and its `p_flags` has `PF_X` |
| Segments.WritableSegments | pwnlib/elf.py:119-122 | a segment is listed exactly when it is in the table and its `p_flags` has `PF_W` |
| Segments.SegmentsWithMembers | pwnlib/elf.py:117-122 | the flag filter keeps exactly the segments of the table carrying the flag |
| Segments.SegmentsWithConcat | pwnlib/elf.py:117 | the flag filter distributes over concatenation, so it keeps table order |
| Segments.LowestNonZeroVaddr | pwnlib/elf.py:38 | `None` (where `min` of an empty sequence raises) exactly when every `p_vaddr` is zero; otherwise a non-zero `p_vaddr` of the table that is at most every non-zero `p_vaddr` |
| Segments.LowestNonZeroVaddrShift | pwnlib/elf.py:38 | shifting every segment by `delta` shifts the least non-zero address by `delta`, when no address is or becomes zero |
| Segments.LowestNonZeroVaddrZeroSegment | pwnlib/elf.py:38 | with a segment at `p_vaddr` 0, a shift of 0x2000 moves the least non-zero address from 0x1000 to 0x2000, not to 0x3000 |
| Segments.OffsetToVaddrShift | pwnlib/elf.py:91-92 | after every `p_vaddr` moves by `delta`, each file offset translates to its old address plus `delta` (or still to `None`) |
| Segments.VaddrToOffsetShift | pwnlib/elf.py:91-92 | after the shift, the moved address translates to the offset the old address had |
| Segments.FileSegmentShift | pwnlib/elf.py:91-92 | a shift leaves file ranges alone, so the same segment answers every offset |
| Segments.MemorySegmentShift | pwnlib/elf.py:91-92 | a shift moves every memory range, so the same segment answers the moved address |
| Segments.VaddrOffsetRoundTrip | pwnlib/elf.py:196-242 | address to offset and back gives the address, when the address is backed by file bytes of its segment and every earlier segment whose file range holds the offset has the same `p_vaddr - p_offset` |
| Segments.VaddrOffsetRoundTripHeaders | pwnlib/elf.py:196-242 | for a table with `PT_PHDR` inside the first `PT_LOAD` and an empty `PT_GNU_STACK` at 0, the base is the `PT_LOAD` address, it translates to offset 0, and offset 0 translates back to it |
| Segments.VaddrOffsetRoundTripTouching | pwnlib/elf.py:196-242 | with file ranges touching at 0x100 and different `p_vaddr - p_offset`, `vaddr_to_offset(0x5000)` is 0x100 but `offset_to_vaddr(0x100)` is 0x1100 |
| Stream.Seek | pwnlib/elf.py:263 | a seek succeeds exactly for a position from 0 to the mapping's size inclusive, and moves there; otherwise `SeekOutOfRange` |
| Stream.ReadFrom | pwnlib/elf.py:264 | the bytes read are the mapping's bytes from the position on, `count` of them or up to the end if fewer remain, all the rest for a negative count; the position advances past them |
| Stream.WriteAt | pwnlib/elf.py:294 | a write succeeds exactly when it ends within the mapping; the written range then holds the data, every other byte and the size are unchanged, and the position advances |
| Tables.FillGotPlt | pwnlib/elf.py:155-164 | the keys of `got` and `plt` are exactly the names of the relocations' symbols; for each name, `got` holds the `r_offset` and `plt` the slot `sh_addr + r_info_sym * sh_addralign` of the last relocation, in table order, with that name |
| Tables.FillStep | pwnlib/elf.py:158-164 | one more loop iteration keeps the loop's promise for the longer relocation prefix |
| Tables.RelocNamesSnoc | pwnlib/elf.py:161 | the names of a relocation list are those of its prefix plus the name of its last entry |
| Tables.LastOfNameInit | pwnlib/elf.py:163-164 | the last relocation with a given name, other than the final entry, is still the last with that name in the prefix without the final entry |
| Tables.PopulateGotPlt | pwnlib/elf.py:145-164 | succeeds exactly when there is a `.plt`, some section's `sh_info` is the first `.plt`'s index, the first such section's `sh_link` is in range and it holds relocations, and either it holds none or the linked section is a symbol table holding every `r_info_sym`; each other outcome is exactly one error (`NoPltSection`, `NoPltRelocations`, `LinkOutOfRange`, `NotRelocationSection`, `NotSymbolTable`, `SymbolIndexOutOfRange`); on success the maps are empty for no relocations and otherwise the relocation loop's |
| Tables.AllSymbolsMembers | pwnlib/elf.py:135-139 | an entry is listed exactly when it belongs to some symbol-table section |
| Tables.AllSymbolsConcat | pwnlib/elf.py:135-139 | the entries of two section lists back to back are the first list's entries, then the second's |
| Tables.AllSymbolsInOrder | pwnlib/elf.py:135-139 | section `i`'s entries come in full and in table order, after those of every earlier section and before those of every later one, so the overlay sees them in that order |
| Tables.Overlay | pwnlib/elf.py:139-143 | a name is a key exactly when it was in the seed or some entry with a non-zero value carries it; the last such entry's value wins; names without one keep the seed's value |
| Tables.OverlayStep | pwnlib/elf.py:139-143 | one more symbol-table entry keeps the overlay's promise for the longer entry list |
| Tables.PopulateSymbols | pwnlib/elf.py:128-143 | `symbols` holds every `plt` name; a name given a non-zero `st_value` by some symbol-table entry maps to the last such value; any other key keeps its `plt` value |
| Elf.Load | pwnlib/elf.py:23-38 | a `.plt`/relocation failure propagates; loading fails with `NoLoadedSegment` exactly when every `p_vaddr` is zero; on success the maps are `PopulateGotPlt`'s and `PopulateSymbols`'s, the base is the least non-zero `p_vaddr`, and the mapping is at position 0 |
| Elf.Rebase | pwnlib/elf.py:86-101 | the base becomes the new address; the library map and the mapped bytes are untouched |
| ElfProps.RebaseShiftsEverything | pwnlib/elf.py:86-101 | with `delta = new - address`, every segment's `p_vaddr` and every section's `sh_addr` move by `delta`, and so does every value of `symbols`, `plt` and `got`; offsets, sizes, flags, contents and every key set are unchanged |
| ElfProps.RebaseToSameAddress | pwnlib/elf.py:86-101 | setting the address to its current value changes nothing |
| ElfProps.RebaseTwice | pwnlib/elf.py:86-101 | two rebases in a row equal one straight rebase to the second address |
| ElfProps.RebaseMovesSymbol | pwnlib/elf.py:78-82 | `address += 0x1000` moves every symbol's address by 0x1000 |
| ElfProps.RebaseOffsetToVaddr | pwnlib/elf.py:86-101 | after a rebase each file offset translates to its old address plus the delta |
| ElfProps.RebaseVaddrToOffset | pwnlib/elf.py:86-101 | after a rebase the moved address translates to the old address's offset |
| ElfProps.RebaseKeepsBaseLowest | pwnlib/elf.py:38 | a rebase keeps the base equal to the least non-zero `p_vaddr`, provided no segment address is or becomes zero |
| ElfProps.BaseFollowsShift | pwnlib/elf.py:91-101 | an image whose segments and base move together by `delta` keeps its base the least non-zero `p_vaddr`, when no address is or becomes zero |
| ElfProps.FilterShift | pwnlib/elf.py:122 | the writable filter commutes with a rebase, which leaves flags alone |
| ElfProps.SegmentHitsShift | pwnlib/elf.py:185-194 | moving a segment moves its hits by the same amount |
| ElfProps.SearchSegmentsShift | pwnlib/elf.py:185-194 | moving all segments moves the whole sequence of hits, in order |
| ElfProps.RebaseSearch | pwnlib/elf.py:166-194 | after a rebase `search` yields the same hits in the same order, each moved by the delta |
| ElfProps.RebaseRead | pwnlib/elf.py:244-268 | after a rebase, reading at the moved address gives what the old address gave |
| ElfProps.ReadAfterWrite | pwnlib/elf.py:282-287 | a successful write at a mapped address reads back as the bytes written, with the position restored |
| ElfProps.WriteCrossesSegments | pwnlib/elf.py:277-279 | a write starting in one segment can overwrite bytes of the next: the segment bound is not checked |
| ElfProps.NoPltNoImage | pwnlib/elf.py:146-150 | with no `.plt` section, loading fails |
| Elf.SegmentData | pwnlib/elf.py:187 | a segment's data is its `p_filesz` bytes from `p_offset`, cut short at the end of the file |
| Elf.Find | pwnlib/elf.py:190 | `find` gives the least index at or after `start` where the pattern occurs, and `None` (the source's -1) when there is none |
| Elf.MatchesFrom | pwnlib/elf.py:188-194 | the loop yields every match index from `start` on, overlapping ones included, strictly ascending, and only match indices |
| Elf.SegmentHits | pwnlib/elf.py:186-194 | the addresses one segment yields are exactly `p_vaddr` plus a match offset in its data, ascending |
| Elf.SearchSegmentsHits | pwnlib/elf.py:185-194 | the scan yields exactly the hits of the segments it is given |
| Elf.Scanned | pwnlib/elf.py:182-183 | the segments scanned are the whole table when `non_writable` is set, and otherwise exactly the table's segments with `PF_W` |
| Elf.Search | pwnlib/elf.py:182-194 | an address is yielded exactly when it is a hit of a segment that is writable, or of any segment when `non_writable` is set |
| Elf.SearchSegmentsConcat | pwnlib/elf.py:185-194 | scanning two segment lists back to back yields the first list's hits, then the second's |
| Elf.SearchSegmentsInOrder | pwnlib/elf.py:185-194 | segment `i`'s hits come in full and ascending, after those of every earlier segment and before those of every later one; an address held by two segments comes out twice |
| Elf.SearchInOrder | pwnlib/elf.py:182-194 | `search` yields the scanned segments' hits segment by segment, in table order, each segment's ascending |
| Elf.Read | pwnlib/elf.py:259-268 | an unmapped address gives `None`; a mapped one fails, with `SeekOutOfRange`, exactly when its offset is past the end of the file, otherwise gives the bytes from that offset: `count` of them when that many remain, and up to the end of the file when fewer remain or `count` is negative; the position is always restored |
| Elf.Write | pwnlib/elf.py:289-297 | an unmapped address changes nothing; a mapped one fails exactly when the data would run past the end of the file, otherwise overwrites exactly those bytes and changes nothing else, position included |
| PushStr.AlignUp | pwn/shellcode/misc/pushstr.py:36 | `align(k, n)` is the least multiple of `k` at or above `n` |
| PushStr.Pad | pwn/shellcode/misc/pushstr.py:31-36 | the padded string is a whole number of words, starts with the string, is less than one word longer, and is filled with `0xff` when the last byte is 128 or more, NUL otherwise |
| PushStr.Words | pwn/shellcode/misc/pushstr.py:38 | the words are `k` bytes each, there are `len / k` of them, and laid end to end they give the string back |
| PushStr.Signed | pwn/shellcode/misc/pushstr.py:39-40 | `n - 2*(n & half)` lies in `[-half, half)`, equals `n` exactly when `n < half`, and otherwise is `n - 2*half` |
| PushStr.EncodeWordI386 | pwn/shellcode/misc/pushstr.py:39-50 | the zero word, and only it, becomes `push 1; dec byte [esp]`; a non-zero word that fits a byte immediate or holds no NUL becomes `push n`; any other word becomes `push a; xor dword [esp], b` over its `xor_pair`; what each shape leaves on the stack is `StackMachine.I386GroupPushesWord` |
| PushStr.Terminated | pwn/shellcode/misc/pushstr.py:13-14 | with `null` the string gains exactly one trailing NUL, otherwise it is unchanged; `StackMachine.PushStringI386Runs` shows that NUL reaches the stack |
| PushStr.GroupsAsWritten | pwn/shellcode/misc/pushstr.py:38-63 | there is one instruction group per padded word, and group `i` is the source's encoding of word `i`, first word first |
| PushStr.Groups | pwn/shellcode/misc/pushstr.py:38-63 | corrected order: one group per padded word, and group `i` encodes word `n-1-i`, last word first |
| PushStr.PushStringAsWritten | pwn/shellcode/misc/pushstr.py:13-25 | as written: the output is empty exactly when the string is empty and `null` is false |
| PushStr.PushString | pwn/shellcode/misc/pushstr.py:13-25 | corrected (words last first, amd64 words by `EncodeWordAmd64`): the output is empty exactly when the string is empty and `null` is false |
| PushStr.Amd64Group | pwn/shellcode/misc/pushstr.py:67-84 | an all-NUL word, and only it, becomes `push 1; dec byte`; a non-zero word that fits a byte immediate or holds no NUL becomes `push n`; any other word becomes `push max; xor dword [rsp], min` over the `xor_pair` of its low half when the short-form test holds, and `mov rax; xor rax; push rax` over the `xor_pair` of the word otherwise |
| PushStr.EncodeWordAmd64AsWritten | pwn/shellcode/misc/pushstr.py:67-84 | as written: an all-zero word becomes `push 1; dec byte [esp]`, and a word needing `xor_pair` takes the 32-bit form exactly when the mis-parsed test of line 73 holds; the long form starts with `mov rax`, line 82 read with its missing comma restored |
| PushStr.EncodeWordAmd64 | pwn/shellcode/misc/pushstr.py:67-84 | corrected: every `dec byte` and `xor dword` addresses the stack through `rsp`, unlike line 69; an all-zero word becomes `push 1; dec byte [rsp]`; a word needing `xor_pair` takes the 32-bit form exactly when it is the sign extension of its low half |
| StackMachine.RunAppend | pwn/shellcode/misc/pushstr.py:38-51 | running two instruction lists back to back is running the second on the first's result |
| StackMachine.I386GroupPushesWord | pwn/shellcode/misc/pushstr.py:39-50 | each of the three i386 shapes leaves exactly its four-byte word on top of the stack, given a sound `xor_pair` |
| StackMachine.ZeroWordRuns | pwn/shellcode/misc/pushstr.py:42-44 | `push 1; dec byte [esp]` leaves four NUL bytes on the stack |
| StackMachine.PlainWordRuns | pwn/shellcode/misc/pushstr.py:45-46 | `push n` leaves the word whose little-endian value is `n` |
| StackMachine.XorWordRuns | pwn/shellcode/misc/pushstr.py:47-50 | `push a; xor dword [esp], b` leaves `a ^ b` |
| StackMachine.RunWordsI386 | pwn/shellcode/misc/pushstr.py:38-51 | the groups for a list of words push the words one after another |
| StackMachine.StackedAppend | pwn/shellcode/misc/pushstr.py:38 | pushing two word lists back to back is pushing their concatenation |
| StackMachine.StackedReversed | pwn/shellcode/misc/pushstr.py:38 | pushing words last first leaves them laid end to end in order from the top of the stack |
| StackMachine.PushStringAsWrittenI386Runs | pwn/shellcode/misc/pushstr.py:13-51 | the i386 output as written, run from any stack, pushes the padded and optionally NUL-terminated string's words first to last, so the last word ends up on top |
| StackMachine.AsWrittenStacksWordsReversed | pwn/shellcode/misc/pushstr.py:4-51 | for `pushstr('ABCDE')` as written the stack reads `E\0\0\0ABCD` upward from `esp`, not the padded string |
| StackMachine.PushStringI386Runs | pwn/shellcode/misc/pushstr.py:4-51 | the corrected i386 output, run from any stack, leaves exactly the padded and optionally NUL-terminated string on top, its first byte at `esp` |
| Amd64Props.SplitWord | pwn/shellcode/misc/pushstr.py:64 | an eight-byte word's value is its low half plus `2**32` times its high half |
| Amd64Props.LowHalfTopBit | pwn/shellcode/misc/pushstr.py:73-79 | the low dword is at least `2**31` exactly when its fourth byte is at least 128 |
| Amd64Props.ShortFormIffSignExtended | pwn/shellcode/misc/pushstr.py:73 | the corrected short-form test holds exactly when the word's signed value lies in `[-2**31, 2**31)`, the values `push imm32` can produce |
| Amd64Props.ShortFormDeterminedByLowHalf | pwn/shellcode/misc/pushstr.py:73-79 | under the corrected test the word's signed value is its low dword read as a signed dword |
| Amd64Props.AsWrittenDropsHighHalf | pwn/shellcode/misc/pushstr.py:73 | for `"A\0BCDEFG"` the test as written picks the 32-bit form although the value is at least `2**32`; the corrected test picks `mov rax` |
| Amd64Props.ParenthesisedAdmitsBit31 | pwn/shellcode/misc/pushstr.py:73 | for `"\0A\0\x80\0\0\0\0"` the test with only its precedence repaired still picks the 32-bit form although bit 31 is set under a NUL high half; the corrected test picks `mov rax` |
| Amd64Props.FlattenThroughRsp | pwn/shellcode/misc/pushstr.py:25 | joining groups that address the stack through `rsp` gives output that does too |
| Amd64Props.PushStringAmd64ThroughRsp | pwn/shellcode/misc/pushstr.py:24-25 | the corrected amd64 output never addresses the stack through `esp` |
| Amd64Props.AsWrittenZeroWordThroughEsp | pwn/shellcode/misc/pushstr.py:13-69 | `pushstr('', arch='amd64')` as written pads to one all-zero word and emits exactly `push 1; dec byte [esp]` |
| Bytes.EncodeDecode | pwn/shellcode/misc/pushstr.py:39 | encoding the value `u32`/`u64` reads gives back the same bytes |
| Bytes.ZeroIffAllZero | pwn/shellcode/misc/pushstr.py:42 | a word's value is zero exactly when all its bytes are NUL |
| Bytes.LittleEndianAppend | pwn/shellcode/misc/pushstr.py:64 | the bytes placed after `a` count `256**len(a)` times as much |
| Scan.FirstWhere | pwnlib/elf.py:150 | the index found is the first accepted one; `None` when none is accepted |

## Left out

- Decoding the ELF file itself (pyelftools' header, section and symbol parsing) is left
  out. Segments, sections with their relocation and symbol entries, and the file bytes
  are inputs to `Elf.Load`.
- Opening and mapping the file (`elf.py:27-28`) is left out. The mapping is its bytes with
  a position, and copy-on-write is immaterial because nothing is written back.
- Elf.Load: a loaded image's mapping is at position 0. This is a modelling choice. In the
  source the position is wherever pyelftools' last parse left it. `read` and `write`
  restore whatever position they find, so no modelled operation can observe it.
- `_populate_libraries` and `ldd` are left out. Running the loader is I/O, so `libs` is an
  opaque input map that a rebase does not touch (the source does not touch it either).
- `elfclass`, `elftype`, `dwarf` and `section(name)` are left out. They only forward to
  pyelftools.
- The `.got` section lookup at `elf.py:147` is left out: its result is never used.
- Elf.SegmentData: `seg.data()` also moves the stream position, and it raises when
  `p_offset` is past the end of the file. The model instead returns the clipped (possibly
  empty) bytes, and the search leaves the position alone.
- A `sh_link` past the section table becomes `LinkOutOfRange`, where the source's list
  index raises. `get_symbol` on an index past the symbol table becomes
  `SymbolIndexOutOfRange`: pyelftools reads at `sh_offset + n * sh_entsize` without a
  bounds check, so the model rejects what the library would misread or fail on.
- A relocation section whose `sh_info` matches but which is not a relocation table becomes
  `NotRelocationSection`, and a non-symbol-table link becomes `NotSymbolTable`. In the
  source these fail on a missing method.
- In the source the setter edits the objects that `segments` and `sections` return. Those
  properties build a fresh list on each call (`elf.py:59-66`), so whether the edits persist
  depends on pyelftools caching the decoded headers. The model assumes they persist, as
  the setter's documentation promises.
- Elf.Write: when the write runs past the end of the file, the mapping raises and the seek
  back at `elf.py:295` never runs, so the source leaves the position at the translated
  offset. The model's failure result carries no stream, so that position is not modelled.
- `xor_pair`, `flat`, `group`, `u32`/`u64`, `align` and `shellcode_reqs` are not part of
  this model. `xor_pair` is a parameter; `StackMachine` assumes it returns two strings of
  the word's length whose xor is the word. `group` is taken to split into consecutive words
  in string order, and `align` to round up; only word sizes 4 and 8 are modelled.
- PushStr.PushString and PushStr.Groups are the corrected encoder (see Findings): words
  last first, and amd64 words by `EncodeWordAmd64`. `PushStringAsWritten`,
  `GroupsAsWritten` and `EncodeWordAmd64AsWritten` follow the code as written, except
  for the comma of line 82 (below).
- The textual output is left out: `hex`/`repr` comments, the `fix` indentation and
  newline join. Instructions are values.
- The `bug(...)` path for an unsupported architecture is left out, because the `Arch` type
  only has the two supported ones.
- StackMachine: the effect of the amd64 instructions is not modelled, so no amd64 output is
  run. In 64-bit mode `push` and `xor rax` take only a sign-extended 32-bit immediate. The
  plain `push n` of a wide NUL-free word (lines 70-71) and the long form's `xor rax, imm`
  (line 83) therefore need an assembler to accept a wider value, and what it makes of one
  is not part of this model. `EncodeWordAmd64` keeps those shapes as the source writes them,
  apart from the comma of line 82.
- Amd64Props.ShortFormIffSignExtended: `push max(a, b)` sign-extends to the intended high half
  only if `xor_pair` does not set bit 31 in both halves of a word whose bit 31 is clear.
  `xor_pair` is a parameter, so this is not promised.
- PushStr.Amd64Group and PushStr.EncodeWordI386: `xor_pair` results of the wrong length are
  not modelled as failures of `u32`/`u64` (pushstr.py:49-50, 75-76, 82-83); `LittleEndian`
  reads them whatever their length.
- PushStr.EncodeWordAmd64AsWritten: line 82 writes `mov rax %s` without the comma that line
  83's `xor rax, %s` has, so the long form as written is not valid assembly. `MovRax`
  models the evidently intended `mov rax, imm64`. Instructions are values, so the missing
  comma is not represented.

## Findings

| source | as written | input that shows it | evidently intended | confidence | as-written member | corrected member |
|---|---|---|---|---|---|---|
| pwn/shellcode/misc/pushstr.py:73 | `s[4:] == '\xff' * 4 if sign<0 else '\x00'*4` parses as `(s[4:] == '\xff'*4) if sign<0 else '\x00'*4`, and the non-empty string is true, so every non-negative word takes the 32-bit xor form | the word `"A\0BCDEFG"`: the 32-bit form rebuilds only `"A\0BC"` and loses `"DEFG"` | the 32-bit form only for a word `push imm32` can produce: the sign extension of its low dword, signed value in `[-2**31, 2**31)`. Repairing the precedence alone still admits `"\0A\0\x80\0\0\0\0"` (`Amd64Props.ParenthesisedAdmitsBit31`) | high; not executed | Amd64Props.AsWrittenDropsHighHalf | Amd64Props.ShortFormIffSignExtended |
| pwn/shellcode/misc/pushstr.py:69 | the zero-word shape on amd64 emits `dec byte [esp]`, which addresses memory through the 32-bit `esp` instead of `rsp` | `pushstr('', arch='amd64')`, whose lone NUL pads to one all-zero word | `dec byte [rsp]`, as line 79 uses `[rsp]` | medium; not executed | Amd64Props.AsWrittenZeroWordThroughEsp | Amd64Props.PushStringAmd64ThroughRsp |
| pwn/shellcode/misc/pushstr.py:38 | the words are encoded and pushed first word first (line 63 likewise on amd64), so the last word ends up at the stack pointer | `pushstr('ABCDE')` on i386: the stack reads `E\0\0\0ABCD` upward from `esp` | "Pushes a string to the stack" (line 7): the words pushed last first, so the string reads forward from the stack pointer | medium (it rests on `group` yielding the words in string order); not executed | StackMachine.AsWrittenStacksWordsReversed | StackMachine.PushStringI386Runs |
