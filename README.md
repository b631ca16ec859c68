# riscv-isa-cosim checkpoint dump, modelled in Dafny

This project models the "dump all info" checkpoint path of the Spike-based
RISC-V co-simulator: the two serializers in `riscv/dump_all_info.cc` and the
restore-stub page cursor `reg_info_mem` declared in `riscv/sim.h`.

- `encoding.dfy` (module `Encoding`) holds the shared vocabulary:
  - bytes and 32/64-bit words;
  - little-endian byte order (`LE`, `ToLE`);
  - slot views of a byte buffer (`Pack`, `Unpack`) and in-place stores (`Splice`);
  - fixed-width lower-case hex (`Hex`, `ParseHex`, `Hex16`).
- `mem_image.dfy` (module `MemImage`) models `sim_t::dump_memlist`.
  - `DumpMemlist` is a loop over the page list. It keeps `last_page` as the source does: an `int` that holds the truncated page offset, compared in `uint64_t` arithmetic.
  - It builds each data line byte by byte in `ReadWord`, as lines 11-16 do.
  - It is proved to produce the image `Image(pages)`.
  - A reader for the `$readmemh` text format (IEEE 1364-2005, section 17.2.9) is modelled as `ReadMemH`. It is used to state what the image means: which guest word lands at which word address.
- `register_snapshot.dfy` (module `RegisterSnapshot`) models `sim_t::dump_register`.
  - The hart state is taken as plain inputs: a CSR map, `mstatus`, `prv`, `pc` and `XPR`.
  - `DumpRegister` appends the present catalogued CSRs, the adjusted `mstatus`, the pc and x1..x31.
  - It is proved equal to `Snapshot(h)`.
  - `ParseSnapshot` is its partner: it reads a snapshot back when the reader knows which CSRs were present.
- `restore_cursor.dfy` (module `RestoreCursor`) models `reg_info_mem` as the class `RegInfoMem`.
  - The class holds a 4096-byte page array, the page base and the two write indices.
  - Each write is an in-place store of 4 or 8 little-endian bytes.
  - The effect of each write is stated both on the bytes and on the 700 instruction slots and 162 data slots.

The `mstatus` adjustment ORs bit 3 (MIE) into bit 7 (MPIE):
`mstatus|=(mstatus&(0b1<<3))<<4` at riscv/dump_all_info.cc:104. Bit 7 is not
replaced by bit 3: a set MPIE stays set even when MIE is clear. `AdjustStatus`
states the OR.

## Model

| member | source | states |
|---|---|---|
| MemImage.DumpMemlist | riscv/dump_all_info.cc:3-20 | the lines written are the image: for each page in list order, an address line when `p->first-4096 != last_page` (in `uint64_t`, with `last_page` a truncated `int` starting at 0), then its 512 data lines |
| MemImage.DumpEntry | riscv/dump_all_info.cc:6-18 | one page's output is its address line when the source's test fires, followed by its data lines, and `last_page` becomes that page's offset cut to an `int` |
| MemImage.DumpPage | riscv/dump_all_info.cc:10-18 | a page yields 512 lines, line i being the 16-digit hex of the little-endian word at bytes 8i..8i+7 |
| MemImage.ReadWord | riscv/dump_all_info.cc:11-16 | shifting in bytes 7 down to 0 gives the little-endian value of the eight bytes |
| MemImage.AsWrittenMarkerDiffers | riscv/dump_all_info.cc:4-9 | the source's test and the intended one (always mark the first page, then mark a page that does not start 4096 bytes after the previous one) disagree on a first page exactly when it sits at offset 4096, and on a later page only when the previous page lies at 2^31 or above |
| MemImage.EmitLength | riscv/dump_all_info.cc:5-18 | an image has exactly 512 lines per page plus one per address line |
| MemImage.EmitLineFormat | riscv/dump_all_info.cc:7-17 | every line is either 16 lower-case hex digits or `@` followed by 16 lower-case hex digits |
| MemImage.DataLinesRoundTrip | riscv/dump_all_info.cc:10-17 | decoding each data line back into 8 little-endian bytes reproduces the page buffer exactly |
| MemImage.Int32OfRange | riscv/dump_all_info.cc:9 | storing an offset in `int last_page` keeps the signed 32-bit value congruent to it modulo 2^32, which is the offset itself below 2^31 |
| MemImage.AsWrittenMarkerRule | riscv/dump_all_info.cc:4-9 | for offsets below 2^31, a page gets an address line iff it does not start 4096 bytes after the previous page; a first page gets one iff its offset is not 4096 |
| MemImage.LoadMarker | riscv/dump_all_info.cc:7 | reading an address line moves the reader to the page's word address, offset / 8 |
| MemImage.LoadData | riscv/dump_all_info.cc:17 | reading data lines stores their words at consecutive word addresses from the current one |
| MemImage.LoadBlock | riscv/dump_all_info.cc:6-18 | one page's lines store its 512 words from its own word address when marked, otherwise from where the reader stands |
| MemImage.ReadBack | riscv/dump_all_info.cc:3-20 | reading any image back places each page's words at the address its address lines (or the lack of them) imply |
| MemImage.IntendedPlacements | riscv/dump_all_info.cc:6-9 | with an address line for the first page and for every page that does not follow on, every page lands at its own word address |
| MemImage.IntendedImageReadsBack | riscv/dump_all_info.cc:4-9 | the corrected dump reads back as exactly the guest memory held by the page list |
| MemImage.AsWrittenReadsBack | riscv/dump_all_info.cc:3-20 | the dump as written reads back as the guest memory when offsets are below 2^31 and the first page is not at 4096 |
| MemImage.UnmarkedFirstPageMisplaced | riscv/dump_all_info.cc:4-8 | a lone page at 0x1000 gets no address line and is read back at word 0 instead of word 0x200 |
| MemImage.TruncatedLastPageMisplaced | riscv/dump_all_info.cc:4-9 | a page at 0x1000 after one at 0x1_0000_0000 gets no address line and is read back in the wrong place |
| Encoding.Hex16Parses | riscv/dump_all_info.cc:17 | `setw(16) setfill('0') hex` of a 64-bit word parses back to the word (`Hex16` itself ensures 16 lower-case hex digits) |
| Encoding.ParseHexOfHex | riscv/dump_all_info.cc:17 | a zero-padded hex rendering parses back to the number |
| Encoding.HexOfParseHex | riscv/dump_all_info.cc:17 | a hex string is the rendering of the number it parses to |
| Encoding.LEOfToLE | riscv/dump_all_info.cc:11-16 | a word written as little-endian bytes reads back as the same word |
| Encoding.ToLEOfLE | riscv/dump_all_info.cc:11-16 | bytes read as a little-endian word and written back are the same bytes |
| Encoding.UnpackPack | riscv/sim.h:146-147 | a buffer viewed as fixed-width little-endian slots and written back out is the same buffer |
| Encoding.PackUnpack | riscv/sim.h:146-147 | slots written out as bytes and viewed as slots again are the same slots |
| Encoding.PackAfterStore | riscv/sim.h:151-152 | storing a word's bytes in slot k changes slot k to that word and no other slot |
| RegisterSnapshot.DumpRegister | riscv/dump_all_info.cc:22-121 | the words written to `reginfo.bin` are the snapshot: present catalogued CSRs, adjusted `mstatus`, pc, x1..x31 |
| RegisterSnapshot.DumpCsrs | riscv/dump_all_info.cc:91-99 | the CSR loop writes the value of each catalogued CSR the hart has, in catalog order, and nothing for an absent one |
| RegisterSnapshot.CatalogShape | riscv/dump_all_info.cc:25-57 | the catalog has 31 distinct CSRs, sstatus first and pmpaddr15 last |
| RegisterSnapshot.PresentCount | riscv/dump_all_info.cc:91-99 | there is exactly one CSR word per present catalogued CSR |
| RegisterSnapshot.CsrPosition | riscv/dump_all_info.cc:91-99 | a present CSR's word comes right after the words of the present CSRs catalogued before it |
| RegisterSnapshot.SnapshotLength | riscv/dump_all_info.cc:91-118 | the snapshot has (present catalogued CSRs) + 1 + 1 + 31 words, however many CSRs are missing |
| RegisterSnapshot.AdjustStatus | riscv/dump_all_info.cc:101-104 | bits 12:11 of the result equal `prv & 3`; bit 7 is old bit 7 OR old bit 3; every other bit is unchanged |
| RegisterSnapshot.AdjustedPrivilege | riscv/dump_all_info.cc:103-104 | for privilege U, S or M the saved MPP is the privilege itself and MIE is kept |
| RegisterSnapshot.AdjustIdempotent | riscv/dump_all_info.cc:103-104 | adjusting an already adjusted status word for the same privilege changes nothing |
| RegisterSnapshot.SnapshotTail | riscv/dump_all_info.cc:105-118 | after the CSR words come the adjusted status, then the pc, then `XPR[1]`..`XPR[31]` in index order |
| RegisterSnapshot.SnapshotIgnoresX0 | riscv/dump_all_info.cc:114-118 | `XPR[0]` is never written: harts differing only in x0 give the same snapshot |
| RegisterSnapshot.ParseSnapshot | riscv/dump_all_info.cc:91-118 | reading a stream back with the presence set: it parses iff its length is the number of present catalogued CSRs plus 33, and then it is exactly the snapshot of the parsed fields, with one CSR value per present catalogued CSR |
| RegisterSnapshot.ParseOfSnapshot | riscv/dump_all_info.cc:91-118 | parsing a snapshot with its presence set recovers the catalogued CSR values, the adjusted status, the pc and x1..x31 |
| RegisterSnapshot.PresenceNeeded | riscv/dump_all_info.cc:91-99 | without the presence set the stream is ambiguous: a hart with only sstatus and one with only sie, same value, write the same words |
| RestoreCursor.RegionSizes | riscv/sim.h:137-139 | `inst_end` is 700 and `data_end` is 162; the instruction region ends where the data region starts, and the data region ends at 4096 |
| RestoreCursor.SlotsDisjoint | riscv/sim.h:137-147 | every instruction slot lies before every data slot, and all lie inside the page |
| RestoreCursor.SlotsCoverPage | riscv/sim.h:146-147 | the instruction slots followed by the data slots, written out, are the whole page |
| RestoreCursor.InstWriteEffect | riscv/sim.h:151 | storing an instruction in slot k sets that slot and leaves every other instruction slot and every data slot alone |
| RestoreCursor.DataWriteEffect | riscv/sim.h:152 | storing a datum in slot j sets that slot and leaves every other data slot and every instruction slot alone |
| RestoreCursor.RegInfoMem.constructor | riscv/sim.h:141-148 | a new cursor shares the page's buffer, has both indices at 0 (so 700 and 162 slots remain) and base = offset + `mem_base` modulo 2^64 |
| RestoreCursor.RegInfoMem.InstRemain | riscv/sim.h:149 | `inst_index + inst_remain() == 700`, and while the cursor is valid the count is within 0..700 |
| RestoreCursor.RegInfoMem.DataRemain | riscv/sim.h:150 | `data_index + data_remain() == 162`, and while the cursor is valid the count is within 0..162 |
| RestoreCursor.RegInfoMem.WriteInst | riscv/sim.h:151 | the page gets the instruction's 4 bytes at 4·`inst_index`; that slot holds it, the other slots and the data region are unchanged; `inst_index` goes up by one and `data_index` is kept |
| RestoreCursor.RegInfoMem.WriteData | riscv/sim.h:152 | the page gets the datum's 8 bytes at 2800 + 8·`data_index`; that slot holds it, the other slots and the instruction region are unchanged; `data_index` goes up by one and `inst_index` is kept |
| RestoreCursor.RegInfoMem.GetDataAddr | riscv/sim.h:153 | the address is base + 2800 + 8·`data_index` in `uint64_t`; while a data slot remains and the page does not wrap, it lies in [base+2800, base+4096) on an 8-byte boundary |

## Left out

- The `printf` diagnostics and the `csr_name` table (riscv/dump_all_info.cc:58-90, 93, 97, 106-107, 111-112, 116) only affect the log. The table names "medeleg" twice (lines 66-67), so the diagnostic for mideleg (`csr_index[8]`) is labelled "medeleg"; every other entry lines up with `csr_index`, and the written words are not affected.
- File handling is modelled as returning the lines or words in order. This covers the `std::ofstream` targets, the name `"reginfo.bin"` and `close`.
- `reg_state.write` writes each word in host byte order. The snapshot is a sequence of 64-bit words and leaves bytes out.
- The stores of `write_inst`/`write_data` go through `uint32_t*` and `uint64_t*` casts of the buffer. They are modelled as little-endian byte stores, which assumes a little-endian host.
- The `processor_t` internals are inputs. The `csrmap` lookup and `read()`, `mstatus->read()`, `prv`, `pc` and `XPR` are a map and plain values in `Hart`.
- The CSR numbers are taken from the CSR map of the RISC-V Privileged Architecture. encoding.h is not part of this model.
- The `page` iterator field of `reg_info_mem` is represented by the page buffer it points to (`page`), which the cursor shares with the page list. Its list position is not modelled.
- `mem_base` is a static field. It is a constructor parameter here.
- `write_li`, `write_jal_abs`, `write_mv_csr`, `write_store`, `find_useless_page`, `add_reg_info`, `dump_regfile` and `dump_csrfile` are only declared (riscv/sim.h:154-166). Their bodies are not part of this model.
- The rest of `sim_t` is not part of this model: the run loop, HTIF, devices, the debug module, the `interactive_*` commands and `ctrlc_pressed`.
- `ReadMemH` models only the subset of `$readmemh` that the dump produces. That subset is address lines `@` followed by hex, and one hex word per line. Comments, white-space separators and x/z digits are not modelled.
- RestoreCursor.RegInfoMem.WriteInst: requires a free slot (`inst_remain() > 0`). The source has no bound check and writes past the region when full.
- RestoreCursor.RegInfoMem.WriteData: requires a free slot (`data_remain() > 0`). The source has no bound check and writes past the page when full.

## Findings

| source | as written | input that shows it | evidently intended | confidence | as-written member | corrected member |
|---|---|---|---|---|---|---|
| riscv/dump_all_info.cc:4-8 | `last_page` starts at 0, so a first page at offset 0x1000 satisfies `p->first-4096 == last_page` and gets no address line | a page list holding one page at offset 0x1000: `$readmemh` loads its words at word 0 instead of word 0x200 | the first page always gets an address line | not executed | MemImage.UnmarkedFirstPageMisplaced | MemImage.IntendedImageReadsBack |
| riscv/dump_all_info.cc:4-9 | `last_page` is an `int`, so a page offset of 2^32 or more is truncated before the next page's test | pages at 0x1_0000_0000 then 0x1000: the second gets no address line and is loaded at word 0x2000_0200 instead of 0x200 | compare with the full 64-bit previous offset plus 4096 | not executed | MemImage.TruncatedLastPageMisplaced | MemImage.IntendedImageReadsBack |
