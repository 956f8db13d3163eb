# FM33 USB flash-disk firmware: a verified Dafny model of its core

The firmware runs on an FM33LC0xx microcontroller and has four parts:

- a P25Q16SH SPI NOR flash chip that holds a single 296-byte `FileEntry` record at address 0;
- a USB mass-storage device that shows that record to the host as a read-only 64-sector FAT12 disk;
- an RTC that is set once per build from the compiler's `__DATE__`/`__TIME__` strings;
- an NST112 temperature sensor read over a bit-banged I2C bus. Its readings are written into the record, either as one text file or as a five-line ring log of timestamped lines, newest first.

The model has ten modules.

- **`Bytes`, `Text`**: byte-level helpers of the C code. These are little-endian stores, `memset`/`memcpy`/`strncpy` on arrays, NUL-terminated strings, upper-casing, and the decimal/hex numerals `sprintf` prints. Each helper is paired with a parser for the text it prints.
- **`FileEntryLayout`**: the `FileEntry` struct of `Inc/spi_flash.h`. It gives the byte layout (32+4+4+256), an encode/decode round trip in both directions, and the validity test shared by the loader and the ring log.
- **`SpiFlash`**: `class FlashDevice`.
  - Its state is the flash contents, an abstract `map<nat, byte>`, plus the trace of SPI command frames sent.
  - Its methods are the flash driver of `Src/spi_flash.c`: erase, page program, read, JEDEC ID, page-safe chunked writes, whole-entry replace, the ring log and the temperature writers.
  - Each method's `ensures` gives the new contents and the new trace as functions of the old ones. Lemmas then prove what those functions promise: read-back, page safety, 3-byte big-endian addresses, fail-closed ID gating, and the five newest lines.
- **`RingLog`**: the pure part of the ring log. It splits the old payload after each `'\n'` into at most five segments. It then builds the new payload: the new line followed by the longest in-order prefix of at most four old segments that fits in 256 bytes. It also replays any sequence of appended lines.
- **`TempFormat`**: the Q4 (1/16 °C) text `"Temperature: [-]W.FFFF C\r\n"` and its timed variant `"HH:MM:SS  Temperature: ..."`. For every t except -32768 the printed decimal reads back as exactly t/16; -32768 prints "--2048.0000" (see `MinValueText`).
- **`Fat12`**: the pure sector images of the virtual disk, each a function of the LBA and a RAM snapshot:
  - the boot sector and its BPB;
  - two identical FAT sectors with 12-bit entries at offset N + N/2;
  - the root directory with the volume label and one 8.3 entry;
  - the one data cluster;
  - zeros everywhere else.
- **`Msc`**: `class MscStorage`. It holds the RAM globals of `msc_mem.c` (`g_storage_ready`, `g_prepared`, `g_file_buf`, `g_file_len`, `g_file_name`) as fields, with arrays for the two buffers.
  - Its methods are the sector builders writing into the caller's buffer at an offset, `make_83_name`, the flash loader with its three diagnostic files, and the USB storage callbacks.
  - `STORAGE_Read` is proved to copy `build_sector(blk_addr + i)` into sector i of the buffer.
- **`RtcBuildTime`**:
  - the pure pieces: `dec2`, the month lookup, Sakamoto's weekday, BCD conversion, the build-time parse and FNV-1a;
  - the FNV loop, as a method;
  - `class Rtc`, a register file with a write log, for `RTC_SimpleInit_IfNeeded`.
- **`Nst112`**:
  - The I2C byte helpers and the read sequence, as methods on `class I2cBus`. Its state is the future of the SDA line, read as an oracle, plus the trace of bus events.
  - The 12-bit to Q4 decode with its inverse.
  - The error-code ladder of `NST112_ReadTempQ4`, proved against a pure description of the complete bus conversation.

I/O is modelled as data:

- SPI traffic is a sequence of `Frame`s (a command's bytes, or the abstract "wait until ready" step).
- I2C traffic is a sequence of `Event`s (start, stop, a driven bit, a sampled bit).
- RTC register writes are a sequence of `RegWrite`s.
- What the peripherals answer is a parameter: the flash contents and the chip's one fixed ID, the SDA levels, and the old RTC register values.

The record is 296 bytes: 32+4+4+256, with no padding. The timed temperature line puts two spaces after the time.

## Model

| member | source | states |
|---|---|---|
| Bytes.Le16RoundTrip | Middleware/USB/App/src/msc_mem.c:58 | the two bytes `le16` stores read back, little-endian, as the stored value |
| Bytes.Le32RoundTrip | Middleware/USB/App/src/msc_mem.c:59-64 | the four bytes `le32` stores read back, little-endian, as the stored value |
| Bytes.Le32OfDecode | Middleware/USB/App/src/msc_mem.c:59-64 | conversely, any four bytes are the `le32` image of the value they decode to |
| Bytes.Memset | Middleware/USB/App/src/msc_mem.c:89 | `memset(p, v, n)` sets exactly the n bytes at the offset to v and leaves the rest of the array as it was |
| Bytes.Memcpy | Middleware/USB/App/src/msc_mem.c:92 | `memcpy` puts the source bytes at the offset and leaves the rest of the array as it was |
| Bytes.StrNCpy | Src/spi_flash.c:250-254 | `strncpy(dst, src, n)` yields n bytes: src's characters up to its first NUL (at most n), then NUL padding |
| Bytes.StrNCpyCStr | Src/spi_flash.c:251 | a string shorter than n survives `strncpy` unchanged as a C string |
| Bytes.CStrTerminated | Src/spi_flash.c:357 | a NUL appended to a NUL-free string ends it exactly there |
| Bytes.IndexOfSpec | Middleware/USB/App/src/msc_mem.c:70-71 | the index found is the first occurrence of the byte, or the length when the byte is absent |
| Text.Upper | Middleware/USB/App/src/msc_mem.c:79-81 | `toupper`: lower-case ASCII letters move to upper case, every other byte is kept, and no result is a lower-case letter |
| Text.NumeralRoundTrip | Src/spi_flash.c:352-354 | the digits printed for n in any base from 2 to 16 parse back to n |
| Text.DecPad | Src/spi_flash.c:352 | `%0wd`/`%02u`: the zero-padded decimal parses back to the number |
| Text.DecInt | Src/spi_flash.c:352-354 | `%d` prints a leading '-' exactly for negative numbers |
| Text.Hex6 | Middleware/USB/App/src/msc_mem.c:207 | `%06X` of a 24-bit id is six hex digits that parse back to the id |
| FileEntryLayout.DefaultName | Inc/spi_flash.h:28 | the default name is "file.txt": eight bytes, none of them NUL or 0xFF |
| FileEntryLayout.DecodeEncode | Inc/spi_flash.h:48-53 | decoding the 296 encoded bytes of a record gives back the record |
| FileEntryLayout.EncodeDecode | Inc/spi_flash.h:48-53 | re-encoding any decoded 296-byte image gives back the same bytes |
| FileEntryLayout.ValidIff | Middleware/USB/App/src/msc_mem.c:189-196 | a record is valid exactly when 0 < size ≤ 256, the name does not start with NUL or 0xFF, and the data does not start with 0xFF |
| FileEntryLayout.BlankSlotsInvalid | Src/spi_flash.c:273-280 | an erased (all 0xFF) slot and an all-zero slot are both invalid |
| SpiFlash.Addr3Decode | Src/spi_flash.c:145-147 | the 3 address bytes sent are the address big-endian, modulo 2^24, and equal the address inside the 16 MB space |
| SpiFlash.CommandSequences | Src/spi_flash.c:137-195 | erase and program each send write-enable (0x06), wait, send their opcode (0x20 or 0x02) plus the 3 address bytes (and the data), then wait; read-data and read-ID frames never erase or program |
| SpiFlash.IdBytes | Src/spi_flash.c:197-221 | the 24-bit ID holds the three bytes received MSB first, and the ID check passes exactly when the first byte is 0x85 |
| SpiFlash.ReadErase | Src/spi_flash.c:137-152 | after erasing, the 4 KB sector around the address reads 0xFF and everything else reads as before |
| SpiFlash.ReadStore | Src/spi_flash.c:154-180 | after programming, the programmed range reads the data and everything else reads as before |
| SpiFlash.ChunksFlatten | Src/spi_flash.c:388-400 | the chunks `Flash_WriteBytes` programs concatenate to the input data |
| SpiFlash.ChunksFirst | Src/spi_flash.c:391-393 | the first chunk starts at addr and is min(size, 256 - addr % 256) long |
| SpiFlash.ChunksPageSafe | Src/spi_flash.c:391-393 | every chunk is non-empty and stays inside one 256-byte page; every chunk after the first starts at a page boundary |
| SpiFlash.ChunksConsecutive | Src/spi_flash.c:396-398 | each chunk starts where the previous one ended |
| SpiFlash.ReadBackChunks | Src/spi_flash.c:388-400 | after the chunked write, each byte in [addr, addr+size) reads back as the data and every other byte reads as before |
| SpiFlash.ReadBackEntry | Src/spi_flash.c:264-265 | erasing sector 0 and writing a 296-byte image reads the image back exactly |
| SpiFlash.EntryForSpec | Src/spi_flash.c:247-262 | the record built holds: the name truncated to 31 characters and NUL-ended (or "file.txt"), size min(size, 256), timestamp 0, the first size data bytes, and zeros after them |
| SpiFlash.EntryForDefaultName | Src/spi_flash.c:250-254 | a null or empty name argument gives the name "file.txt" |
| SpiFlash.ReplacedReadsBack | Src/spi_flash.c:264-267 | after a whole-entry replace, reading the 296 bytes at address 0 decodes to exactly the record written |
| SpiFlash.ReplaceFramesShape | Src/spi_flash.c:265 | the 296-byte write is two page programs: 256 bytes at 0 and 40 bytes at 256 |
| SpiFlash.PrevPayload | Src/spi_flash.c:291-299 | the old payload is present exactly when the stored record is valid, and is then 1 to 256 bytes long |
| SpiFlash.ScanEnd | Src/spi_flash.c:305-320 | the segment table the scanning loop leaves equals the pure split of the old payload |
| SpiFlash.LogEntryIs | Src/spi_flash.c:322-338 | the record the ring log writes is the one built from "file.txt" and the composed payload |
| SpiFlash.LogEntrySpec | Src/spi_flash.c:282-338 | the ring-log record is named "file.txt", has timestamp 0, and its payload is the composed payload; for a non-empty line not starting with 0xFF the record is valid and yields that payload on the next call |
| SpiFlash.LogImageReplay | Src/spi_flash.c:282-338 | after any sequence of appended lines, the stored payload is the replay of those lines over the old one |
| SpiFlash.LogKeepsFiveNewest | Src/spi_flash.c:269-271 | after five or more well-formed lines have been appended, the stored payload is exactly the five newest lines, newest first, and splits back into them |
| SpiFlash.TempEntrySpec | Src/spi_flash.c:360-378 | the temperature file is a valid "file.txt" record whose payload is the Q4 temperature text |
| SpiFlash.FlashDevice.SectorErase | Src/spi_flash.c:137-152 | sends the erase command frames for the address and erases its sector |
| SpiFlash.FlashDevice.PageProgram | Src/spi_flash.c:154-180 | clamps size to 256, sends the program command frames with that many data bytes, and stores them at the address |
| SpiFlash.FlashDevice.ReadData | Src/spi_flash.c:182-195 | fills the buffer's first size bytes with the contents at the address; leaves the flash and the rest of the buffer unchanged; records one read frame |
| SpiFlash.FlashDevice.ReadId | Src/spi_flash.c:197-210 | returns the device's 24-bit JEDEC ID and records one ID frame |
| SpiFlash.FlashDevice.CheckId | Src/spi_flash.c:213-221 | returns whether the manufacturer byte is 0x85, without touching the flash |
| SpiFlash.FlashDevice.WriteBytes | Src/spi_flash.c:388-400 | the loop programs exactly the page-safe chunks of the data, in order, and the flash ends as their successive stores |
| SpiFlash.FlashDevice.WriteFileEntry | Src/spi_flash.c:243-267 | if the ID check fails: returns 0, flash unchanged, only the ID frame sent; otherwise: returns 1, replaces the entry with the record built from the arguments |
| SpiFlash.FlashDevice.WriteFileToFlash | Src/spi_flash.c:223-241 | returns 0 without erasing or programming when the ID check fails; otherwise returns 2 after replacing the entry with "file.txt" holding the 12 bytes of "Hello world!" (`strlen`, without the NUL) |
| SpiFlash.FlashDevice.LogLineRing5 | Src/spi_flash.c:282-339 | returns 0 and changes nothing (only the ID probe) when the ID check fails, the line is null or its size is 0; otherwise returns 1 and replaces the entry with the new line followed by the old segments that fit |
| SpiFlash.FlashDevice.WriteTemperatureFileQ4 | Src/spi_flash.c:360-378 | stores the Q4 temperature text as "file.txt" when the ID check passes; otherwise returns 0 and changes nothing |
| SpiFlash.FlashDevice.LogTemperatureWithTimeRing5Q4 | Src/spi_flash.c:341-358 | logs the timed temperature line as the newest ring-log line when the ID check passes; otherwise returns 0 and changes nothing |
| SpiFlash.FlashDevice.WriteTemperatureWithTimeFileQ4 | Src/spi_flash.c:380-384 | the older name of the timed ring-log writer and has the same effect |
| RingLog.SegmentsCut | Src/spi_flash.c:305-320 | the split yields at most five segments whose concatenation is a prefix of the old payload, and the whole payload when fewer than five were cut |
| RingLog.SegmentsShape | Src/spi_flash.c:305-320 | every segment but the last ends in its only '\n'; an unterminated trailing fragment is the last segment |
| RingLog.KeptFits | Src/spi_flash.c:331-336 | the kept old segments fit in 256 bytes together with what precedes them, and the first one not kept would overflow (the loop breaks, it does not skip) |
| RingLog.RingPayloadShape | Src/spi_flash.c:322-336 | the new payload is the new line followed by an in-order prefix of at most four old segments; it stops at the first that would overflow, is at most 256 bytes, and the segments come from the old payload |
| RingLog.RingPayloadBound | Src/spi_flash.c:326-336 | the new payload never exceeds 256 bytes |
| RingLog.RingPayloadFresh | Src/spi_flash.c:293-299 | with no valid old entry the new payload is just the new line |
| RingLog.SegmentsOfWhole | Src/spi_flash.c:305-320 | a payload made of at most five '\n'-ended lines splits back into exactly those lines |
| RingLog.Newest | Src/spi_flash.c:332-336 | lists the n most recent lines, the most recent first |
| RingLog.ReplayInvariant | Src/spi_flash.c:282-338 | after any sequence of appends the payload starts with the newest (up to five) lines, newest first; after five or more it is exactly those five; it never exceeds 256 bytes |
| RingLog.FiveNewestLines | Src/spi_flash.c:269-271 | five or more appended lines leave exactly the five newest, newest first, and the result splits back into them |
| TempFormat.Magnitude | Src/spi_flash.c:365-366 | the 16-bit absolute value `(int16_t)(sign ? -t : t)`, which leaves -32768 as it is |
| TempFormat.Frac4 | Src/spi_flash.c:368-369 | the four fraction digits are (|t| & 15) * 625, a multiple of 625 in 0..9375 |
| TempFormat.NumberExact | Src/spi_flash.c:360-378 | the printed "[-]W.FFFF" reads back as the fixed-point value t * 625 / 10000, that is exactly t/16 |
| TempFormat.MinValueText | Src/spi_flash.c:365-373 | for -32768 the C code prints "--2048.0000", because the negation overflows back to itself |
| TempFormat.TempTextShape | Src/spi_flash.c:371-375 | the temperature text is at most 28 bytes and ends with its only '\n' |
| TempFormat.TimedTextIsGoodLine | Src/spi_flash.c:351-355 | every timed temperature line is a well-formed ring-log line: at most 50 bytes, ending with its only '\n', not starting with 0xFF |
| TempFormat.TextsHaveNoNul | Src/spi_flash.c:357 | both texts are NUL-free, so `strlen` of the printed buffer is their length |
| Fat12.Name83Spec | Middleware/USB/App/src/msc_mem.c:66-83 | positions 0-7 hold the upper-cased characters before the first '.' (at most 8), positions 8-10 the upper-cased characters after it (at most 3), spaces elsewhere |
| Fat12.Name83Default | Middleware/USB/App/src/msc_mem.c:66-83 | "file.txt" becomes "FILE    TXT" |
| Fat12.JumpSpec | Middleware/USB/App/src/msc_mem.c:91-92 | the jump EB 3C 90 and the OEM name "MSDOS5.0" are stored, nothing else changes |
| Fat12.BpbSpec | Middleware/USB/App/src/msc_mem.c:94-106 | the BPB fields at 11-35 hold 512, 1, 1, 2, 16, 64, 0xF8, 1, 63, 255, 0, 0; no other byte changes |
| Fat12.ExtSpec | Middleware/USB/App/src/msc_mem.c:108-114 | drive 0x80, signature 0x29, volume id, label and "FAT12   " are stored, plus 55 AA at 510; no other byte changes |
| Fat12.BootBpbFields | Middleware/USB/App/src/msc_mem.c:87-115 | in the boot sector, bytes 11-12 decode to 512, 19-20 to 64, byte 21 is 0xF8, and the other BPB fields decode to the values above |
| Fat12.BootExtFields | Middleware/USB/App/src/msc_mem.c:108-114 | in the boot sector, byte 38 is 0x29, bytes 510/511 are 0x55/0xAA, and the volume id decodes to 0x20251217 |
| Fat12.BootSectorZeros | Middleware/USB/App/src/msc_mem.c:89 | every byte of the boot sector that no field sets is 0 |
| Fat12.FatSectorSpec | Middleware/USB/App/src/msc_mem.c:117-131 | the FAT starts F8 FF FF FF 0F 00 and is zero after; the 12-bit entries of clusters 0, 1, 2 decode to 0xFF8, 0xFFF, 0xFFF, and those of clusters 3 to 340 to 0 |
| Fat12.RootDirSpec | Middleware/USB/App/src/msc_mem.c:133-150 | entry 0 is the label with attribute 0x08; entry 1 is the 8.3 name of the snapshot name (or "file.txt" when empty), attribute 0x20, first cluster 2 and size len; all other bytes are 0 |
| Fat12.DataSectorSpec | Middleware/USB/App/src/msc_mem.c:152-160 | the data sector holds the first min(len, 512) payload bytes and zeros after them |
| Fat12.SectorLayout | Middleware/USB/App/src/msc_mem.c:162-175 | LBA 1 and 2 are the same FAT sector; LBA 0 is the boot sector; every LBA past 4 is all zeros; only LBA 3 and 4 depend on the snapshot |
| Fat12.BlocksAt | Middleware/USB/App/src/msc_mem.c:316-318 | sector i of a multi-block read is the sector image of LBA (blk_addr + i) mod 2^32 |
| Msc.Le16At | Middleware/USB/App/src/msc_mem.c:58 | `le16(p + at, v)` stores the two little-endian bytes of v at the offset and leaves the rest of the array as it was |
| Msc.Le32At | Middleware/USB/App/src/msc_mem.c:59-64 | `le32(p + at, v)` stores the four little-endian bytes of v at the offset and leaves the rest of the array as it was |
| Msc.StrNCpyAt | Middleware/USB/App/src/msc_mem.c:186 | `strncpy(dst + at, src, n)` writes exactly the n-byte `strncpy` image of src at the offset, and nothing else |
| Msc.Make83Name | Middleware/USB/App/src/msc_mem.c:66-83 | the loops fill the 11-byte buffer with exactly the 8.3 name |
| Msc.FindDot | Middleware/USB/App/src/msc_mem.c:70-71 | returns the index of the first '.' of the C string, or nothing when there is none |
| Msc.Strlen | Middleware/USB/App/src/msc_mem.c:73-74 | counts the bytes before the terminating NUL |
| Msc.MscStorage.BuildSector | Middleware/USB/App/src/msc_mem.c:162-175 | writes at the offset exactly the sector image of the LBA for the current snapshot and leaves the rest of the buffer as it was |
| Msc.MscStorage.BuildRootDirSector | Middleware/USB/App/src/msc_mem.c:133-150 | writes at the offset exactly the root directory image for the current name and length |
| Msc.MscStorage.BuildDataSector | Middleware/USB/App/src/msc_mem.c:152-160 | writes at the offset exactly the data sector image for the current buffer and length |
| Msc.BuildBootSector | Middleware/USB/App/src/msc_mem.c:87-115 | writes at the offset exactly the boot sector image |
| Msc.BuildFatSector | Middleware/USB/App/src/msc_mem.c:117-131 | writes at the offset exactly the FAT sector image |
| Msc.MscStorage.SetDefaultFile | Middleware/USB/App/src/msc_mem.c:179-187 | the snapshot becomes "file.txt" with "Hello 2 World!" (14 bytes) |
| Msc.MscStorage.LoadFromFlash | Middleware/USB/App/src/msc_mem.c:198-256 | the snapshot becomes the loader's result for the device's ID and the 296 bytes at address 0; the flash is unchanged and only read frames are sent |
| Msc.MscStorage.ReadSlot | Middleware/USB/App/src/msc_mem.c:224-237 | reads the 296 bytes at address 0 into a record: the result is their decoding, the flash is unchanged, and one read frame is sent |
| Msc.MscStorage.ShowEntry | Middleware/USB/App/src/msc_mem.c:248-255 | from the default snapshot, a valid record's clamped size, data and name become the snapshot |
| Msc.MscStorage.LoadIdentified | Middleware/USB/App/src/msc_mem.c:215-255 | once the ID has been read and is not 0x000000 or 0xFFFFFF, the rest of the loader leaves the loader's result for that ID and slot; the flash is unchanged and only the remaining frames are sent |
| Msc.LoadedOk | Middleware/USB/App/src/msc_mem.c:198-256 | every loader result has a name NUL-ended within 32 bytes, not empty, and a length of 1 to 256 |
| Msc.LoadedNoFlash | Middleware/USB/App/src/msc_mem.c:205-212 | ID 0x000000 or 0xFFFFFF gives "NOFLASH.TXT" holding "SPI NO RESP, JEDEC=0x" plus the six hex digits of the ID plus CRLF |
| Msc.LoadedForeign | Middleware/USB/App/src/msc_mem.c:215-222 | another manufacturer than 0x85 gives "JEDEC.TXT" holding "JEDEC=0x", the ID in hex and " (update Flash_CheckID)\r\n" |
| Msc.LoadedBadEntry | Middleware/USB/App/src/msc_mem.c:239-246 | an invalid record gives "BADFILE.TXT" holding the 18 bytes "ERR: Bad FileEntry" |
| Msc.LoadedEntry | Middleware/USB/App/src/msc_mem.c:248-255 | a valid record gives its size and its first size data bytes, with the rest of the buffer keeping "Hello 2 World!", and its name truncated to 31 characters |
| Msc.LoadedIgnoresSlot | Middleware/USB/App/src/msc_mem.c:205-222 | when the ID is absent or foreign, the flash contents do not matter |
| Msc.NoFlashText | Middleware/USB/App/src/msc_mem.c:207 | the no-response text is 29 bytes and carries the ID, readable back from its hex digits |
| Msc.JedecText | Middleware/USB/App/src/msc_mem.c:217 | the foreign-ID text is 39 bytes and carries the ID, readable back from its hex digits |
| Msc.NameFieldSpec | Middleware/USB/App/src/msc_mem.c:254-255 | the copied name keeps at most 31 characters and is NUL-ended at byte 31 |
| Msc.DiagnosticSpec | Middleware/USB/App/src/msc_mem.c:205-246 | a diagnostic snapshot shows the given name and exactly the given text |
| Msc.VolumeServesSnapshot | Middleware/USB/App/src/msc_mem.c:133-160 | the root directory lists the snapshot's 8.3 name with its length, and the data sector starts with its payload |
| Msc.LoadFramesQuiet | Middleware/USB/App/src/msc_mem.c:198-256 | the loader sends 1 to 3 frames and none of them erases or programs |
| Msc.RangeOkMeaning | Middleware/USB/App/src/msc_mem.c:314 | without 32-bit overflow the range check accepts exactly blk_addr + blk_len ≤ 64; with overflow it also accepts out-of-volume requests such as (0xFFFFFFFF, 1) |
| Msc.MscStorage.Init | Middleware/USB/App/src/msc_mem.c:281-287 | returns 0 and marks the storage ready |
| Msc.MscStorage.GetCapacity | Middleware/USB/App/src/msc_mem.c:289-297 | returns -1 and writes nothing if either pointer is null; otherwise returns 0 with 64 blocks of 512 bytes |
| Msc.MscStorage.IsReady | Middleware/USB/App/src/msc_mem.c:299-303 | returns 0 exactly when ready, and -1 otherwise |
| Msc.MscStorage.IsWriteProtected | Middleware/USB/App/src/msc_mem.c:305-309 | always reports the medium write-protected |
| Msc.MscStorage.Write | Middleware/USB/App/src/msc_mem.c:323-327 | always returns -1 and changes nothing |
| Msc.MscStorage.Read | Middleware/USB/App/src/msc_mem.c:311-321 | returns 0 exactly when ready, buf is non-null and the 32-bit range check passes, and then the buffer starts with sectors blk_addr .. blk_addr+blk_len-1; on -1 the buffer is unchanged |
| Msc.MscStorage.ReadBlocks | Middleware/USB/App/src/msc_mem.c:316-318 | the loop writes sector i of the request at offset i * 512 for each i < blk_len |
| Msc.MscStorage.PrepareImage | Middleware/USB/App/src/msc_mem.c:335-345 | reloads the snapshot from flash, as the loader does, and marks the image prepared |
| RtcBuildTime.Dec2 | Inc/rtc_build_time_ll.h:33-36 | on two ASCII digits the result is the number 10a + b they spell, at most 99 |
| RtcBuildTime.Dec2Digits | Inc/rtc_build_time_ll.h:33-36 | two ASCII digits a, b give 10a + b, in 0..99 |
| RtcBuildTime.MonthFromAbbr | Inc/rtc_build_time_ll.h:38-54 | the month number is always in 1..12 |
| RtcBuildTime.MonthFromAbbrSpec | Inc/rtc_build_time_ll.h:38-54 | the result is in 1..12: the 1-based index of the matching "Jan".."Dec", and 1 for anything else |
| RtcBuildTime.MonthsDistinct | Inc/rtc_build_time_ll.h:40-41 | the twelve abbreviations differ, so a match is unique |
| RtcBuildTime.WeekdayIso | Inc/rtc_build_time_ll.h:56-65 | the weekday is in 1..7, Sunday being 7 |
| RtcBuildTime.WeekdayNextDay | Inc/rtc_build_time_ll.h:56-65 | on every valid Gregorian date, the weekday of the next day is the next ISO weekday |
| RtcBuildTime.WeekdayExamples | Inc/rtc_build_time_ll.h:56-65 | 17 December 2025 is a Wednesday (3) and 21 December 2025 a Sunday (7) |
| RtcBuildTime.ParseBuildDateTime | Inc/rtc_build_time_ll.h:67-85 | the month is always in 1..12 |
| RtcBuildTime.ParseFields | Inc/rtc_build_time_ll.h:67-85 | on well-shaped strings: the year is d[7..10]; the day is d[5] alone when d[4] is a space and d[4..5] otherwise; hours, minutes and seconds are the digit pairs at 0, 3 and 6 |
| RtcBuildTime.ParseExamples | Inc/rtc_build_time_ll.h:67-85 | "Dec 17 2025" "14:03:59" parse to 2025-12-17 14:03:59; "Jan  5 2026" has day 5 and month 1 |
| RtcBuildTime.Bcd2Bin | Inc/rtc_build_time_ll.h:108-111 | on a valid BCD byte the result is at most 99, its tens digit is the high nibble and its units digit the low nibble |
| RtcBuildTime.Bin2Bcd | Inc/rtc_build_time_ll.h:113-116 | for v ≤ 99 the result is valid BCD, with the tens digit of v in the high nibble and the units digit in the low nibble |
| RtcBuildTime.BcdRoundTrip | Inc/rtc_build_time_ll.h:108-116 | for v ≤ 99 both nibbles of bin2bcd(v) are the decimal digits of v, and bcd2bin gives v back |
| RtcBuildTime.BinRoundTrip | Inc/rtc_build_time_ll.h:108-116 | every valid BCD byte converts to a value ≤ 99 and back to itself |
| RtcBuildTime.Bin2BcdTruncates | Inc/rtc_build_time_ll.h:113-116 | above 99 the result is wrong, with v % 10 still in the low nibble: 100..159 give a high nibble of 10..15 (nothing is cut, but it is not BCD); from 160 on the shifted tens no longer fit in 8 bits and are cut, leaving the BCD form of v - 160 (160 gives 0, 255 gives 0x95) |
| RtcBuildTime.FnvAppend | Inc/rtc_build_time_ll.h:87-94 | hashing a then b equals hashing a + b |
| RtcBuildTime.Fnv1aStep | Inc/rtc_build_time_ll.h:87-94 | the loop computes FNV-1a (xor, then multiply by 16777619 mod 2^32) over the bytes before the NUL |
| RtcBuildTime.SignatureOfJoined | Inc/rtc_build_time_ll.h:96-106 | the signature is 0x52544300 xor FNV-1a from 2166136261 over date + " " + time |
| RtcBuildTime.BuildSignature | Inc/rtc_build_time_ll.h:96-106 | the method computes that signature |
| RtcBuildTime.InitWritesOrder | Inc/rtc_build_time_ll.h:118-144 | the init writes unlock RTC_WER first, then the seven BCD fields, then lock it, and write BKR0 last |
| RtcBuildTime.Rtc.SimpleInitIfNeeded | Inc/rtc_build_time_ll.h:118-144 | when BKR0 already holds the signature nothing is written; otherwise the BCD calendar of the build time and the signature are written in that order; BKR0 always ends equal to the signature, so a second call is a no-op |
| RtcBuildTime.InitReadsBuildTime | Inc/rtc_build_time_ll.h:146-164 | after initialisation, `RTC_ReadTimeHMS`'s conversion gives back the build time's hours, minutes and seconds |
| RtcBuildTime.InitHoldsBcd | Inc/rtc_build_time_ll.h:126-140 | on well-shaped strings every calendar register holds valid BCD |
| Nst112.AssembleToBits | Src/nst112.c:91-140 | MSB-first bits of a value assemble back to the value |
| Nst112.ToBitsAssemble | Src/nst112.c:91-140 | assembling bits and splitting the value again gives the bits back |
| Nst112.AssembleMsbFirst | Src/nst112.c:96-100 | the eight bits sent for b, from the top, assemble back to b |
| Nst112.DecodeRange | Src/nst112.c:162-169 | every decoded reading lies in -2048..2047 |
| Nst112.DecodeIsArithShift | Src/nst112.c:162-169 | the decode equals the signed 16-bit raw word shifted right by 4, arithmetically |
| Nst112.DecodeIgnoresLowNibble | Src/nst112.c:162-169 | the low four bits of the LSB never affect the result |
| Nst112.DecodeEncode | Src/nst112.c:162-169 | every Q4 value in range has a register image that decodes back to it |
| Nst112.DecodeExamples | Inc/nst112.h:22 | 0x19 0x10 decodes to 401 (25.0625 °C), 0xFF 0xF0 to -1, and the extremes to 2047 and -2048 |
| Nst112.AddressBytes | Src/nst112.c:147-148 | the 7-bit address 0x48 gives write address 0x90 and read address 0x91 |
| Nst112.WireFrames | Src/nst112.c:142-173 | every conversation starts with a start condition, then sends 0x90 MSB first, and ends with a stop |
| Nst112.NoDevice | Src/nst112.c:150-151 | with no device answering, the ladder gives 3 after start, address and stop |
| Nst112.DeviceReply | Src/nst112.c:150-169 | a device that acknowledges everything and sends the register image of q makes the read succeed with q |
| Nst112.I2cBus.WriteByte | Src/nst112.c:91-115 | drives the eight bits of b from the top, then samples once; returns true exactly when SDA was low |
| Nst112.I2cBus.ReadByte | Src/nst112.c:117-140 | samples eight bits and returns them assembled MSB first, then drives ACK (low) when ack is set and NACK otherwise |
| Nst112.ReadTempQ4 | Src/nst112.c:142-173 | a null output returns 2 with no bus activity; otherwise returns the ladder code (3, 4, 5 for the NACKed byte, 0 on success); on error `*out` is untouched, on success it holds the decoded reading; the bus trace is the whole conversation |
| Nst112.StoreReading | Src/nst112.c:162-171 | the value stored through the output is the sign-extended 12-bit reading of the two bytes, that is DecodeQ4, which DecodeIsArithShift and DecodeRange characterise |
| Nst112.PointerPhase | Src/nst112.c:146-153 | the address and pointer phase stops with 3 or 4 exactly when those NACK (after a stop), and otherwise leaves the bus after the pointer byte |
| Nst112.ReadPhase | Src/nst112.c:154-160 | the read phase returns 5 on a NACKed read address and otherwise the two bytes whose decode is the reading |

## Left out

- USB stack glue: the inquiry data, the callback table and `STORAGE_GetMaxLun` (Middleware/USB/App/src/msc_mem.c:49-56, 268-279, 329-332) only declare constants for the USB library.
- The stale header comment of msc_mem.c about "Hello World!" content: the code's "Hello 2 World!" is modelled.
- The order `MSC_PrepareImage` before `USBInit` once per insertion (Src/main.c) is not a precondition of the storage callbacks. The callbacks read whatever snapshot the object holds, and the storage is correct for any sequence of calls.
- SpiFlash.FlashDevice.LogLineRing5, SpiFlash.FlashDevice.WriteTemperatureFileQ4, SpiFlash.FlashDevice.LogTemperatureWithTimeRing5Q4: the chip answers one fixed JEDEC ID on every read (`FlashDevice.Id()` comes from constant fields). So the second ID read inside `Flash_WriteFileEntry` (Src/spi_flash.c:245, reached from 338 and 377) always agrees with the first (Src/spi_flash.c:284 and 245). A chip whose answer changes between two reads is not modelled. Such a chip would let Ring5 send its read frame and then return 0.
- Msc.MscStorage.LoadFromFlash, Msc.MscStorage.PrepareImage: the same fixed ID is assumed for `Flash_ReadID` (Middleware/USB/App/src/msc_mem.c:203) and the later `Flash_CheckID` (:215). A first read of 0x85xxxx followed by 0xFFFFFF would in the code give JEDEC.TXT printing a good ID; the model cannot produce that.
- Msc.RangeOkMeaning: the 32-bit wrap-around of `blk_addr + blk_len` is modelled as written. A request such as (0xFFFFFFFF, 1) passes the check and returns 0 instead of -1. Sector i is then built from LBA (blk_addr + i) mod 2^32. So an out-of-volume request succeeds: (0xFFFFFFF0, 0x20) delivers 16 zero blocks followed by LBAs 0..15, which are the boot sector, both FATs, the root directory, the data sector and zeros.
- Flash_WaitForReady's status poll and Flash_ReadStatus (Src/spi_flash.c:114-129) are one abstract `Ready` frame. The poll's termination depends on the chip, and no retry limit is invented.
- GPIO, clock and SPI bring-up, chip select and the byte-level SPI primitives (Src/spi_flash.c:8-110). The SPI link is abstracted to command frames.
- NOR physics is not modelled: programming's bit-AND, page wrap, and the erase granularity beyond reading the erased sector back as 0xFF. Program is a plain store.
- Flash addresses are reduced modulo 2^24 by the 3-byte address; an address of 16 MB or more wraps and is modelled that way.
- `__DATE__` and `__TIME__` are parameters. NULL out-pointers of `RTC_ParseBuildDateTime` are not modelled: the parse returns all fields as one value.
- RTC register addresses, volatile access and `RTC_ReadTimeHMS`'s re-read loop until two reads agree (Inc/rtc_build_time_ll.h:12-24, 146-164). Only its BCD-to-binary mapping is kept.
- I2C timing and pin handling: `i2c_delay`, `sda_in`/`sda_out`, the clock toggling inside `i2c_start`/`i2c_stop`, and `NST112_GPIO_Init` (Src/nst112.c:7-89). Start and stop are events; a bit is one drive or sample event.
- The SDA line is an oracle: the levels the device will present at each sampled bit. The sensor's behaviour is therefore free, not modelled.
- Src/wkup.c (wake-up and deep sleep) and the main loop of Src/main.c are not part of this model.
- The `Log5Record` and `LOG_MAGIC` declarations of Inc/spi_flash.h:11-16 are unused by the code.
- `sprintf` itself: only the decimal, zero-padded and six-digit upper-case hex conversions the code uses are modelled, each as a function with its parser.
- SpiFlash.ChunksConsecutive: stated only when addr + size stays below 2^32; past that the C address wraps, and the chunks are then still page-safe (ChunksPageSafe) but no longer one consecutive range.
- SpiFlash.ReadBackChunks: stated only for writes inside the 16 MB address space, since past it the 3-byte address wraps onto earlier bytes.
