# gzml — MC68HC908GZ60 monitor-mode loader, modelled in Dafny

`gzml.py` talks to an MC68HC908GZ60 in monitor mode over a one-wire serial
link and uses it to flash an S19 file, to mass-erase the two flash banks and
to dump memory. This project models the loader's core and proves properties
of the model:

- **Timing.** This is the baud-rate search and the branch offset of the delay loop, derived from the oscillator frequency and the PTB4 level.
- **The byte protocol.** Every byte the host sends comes back twice: once as the loopback of its own transmit line, then as the target's echo. The monitor commands READ, IREAD, WRITE, IWRITE, READSP and RUN are built from single-byte sends and receives.
  - `Channel` describes every exchange as a list of operations over the bytes the line will deliver. Its interpreter `Run` stops at the first failure, as the loader exits at its first error.
  - `Session.Loader` is the loader's state: the line, `connected`, the handler image with its loaded flag, and the two routine entry addresses. Each of its methods performs exactly the exchange that the pure description gives.
- **The flash handler.**
  - The eight-byte parameter block (`SelectFlash`).
  - Starting a routine through READSP and RUN.
  - The break character and the return code at 0x00C6.
  - The one-time patch of the branch-offset byte in the handler image.
- **The download.**
  - The 64 KiB memory image built from the record segments.
  - The fixed table of row descriptors.
  - The forward fill, the trim of trailing 0xFF bytes and the filter of unused rows, all over the image array.
  - The write, read-back and verify of each row.
- **The memory dump.** The `hex_dump_memory` text and the clamp of the dump length at 0xFFFF.

Modules: `Common` (bytes, errors, outcomes), `Channel`, `Monitor`, `Flash`,
`FlashRows`, `MemoryImage`, `HexDump`, `Timing` and `Session`.

The frequency is an integer number of Hz, and the two truncating conversions
in `GetTiming` are exact integer arithmetic. `Timing.NopCount` reads
`int(fb / 400000 - 3)` with true division, then truncation toward zero; this
is what happens with a float frequency (the default) or with PTB4 high. The
loader's header names Python 2.7 as its interpreter. There, an integer
frequency given with `-q` and PTB4 low makes `/` a floor division, and the
count becomes `floor(fb / 400000) - 3` (`Timing.NopCountFloor`).
`Timing.NopCountReadings` proves that the two readings agree from 1.2 MHz up.
Below 1.2 MHz, at frequencies that are not multiples of 400 kHz, the floor
reading is one less.

Two consequences of the code are proved but are not changed in the model:

- At an effective frequency of 400 kHz or less, `GetTiming` returns a branch offset of 256 (`Timing.BraOffsetRange`). The patched image then fails when that value is handed to the port (`Flash.PatchedWriteNeedsByte`).
- For a length of zero or less, `ReadMemoryIntoList` still reads one byte (`Monitor.ReadMemory`).

## Model

| member | source | states |
|---|---|---|
| Timing.GetTiming | gzml.py:171-189 | The configuration error is returned exactly when no standard rate is within 2% of `trunc(fb / 552)`, and it names that rate. Otherwise the result is the first rate within tolerance, and the branch offset is `254 - NopCount`. |
| Timing.BaudRateUnique | gzml.py:178-182 | No two tolerance windows overlap, so the rate chosen is the only standard rate within 2%. |
| Timing.NopCountIsTruncation | gzml.py:185 | The NOP count is the truncation toward zero of the real `fb / 400000 - 3`. |
| Timing.NopCountReadings | gzml.py:185 | The floor-division reading of the count equals the truncating one from 1.2 MHz up. Below it, off the multiples of 400 kHz, the floor reading is one less. |
| Timing.BraOffsetRange | gzml.py:185-186 | On success the branch offset lies in 1..256. It is below 256, and so fits the byte, exactly when the effective frequency is above 400 kHz. |
| Timing.GetTimingAt | gzml.py:178-189 | Any standard rate within tolerance is the result, together with its branch offset. |
| Timing.GetTimingInGap | gzml.py:183-184 | A theoretical rate between two neighbouring windows is the configuration error. |
| Timing.GetTimingExample | gzml.py:171-189 | 5.2 MHz with PTB4 low needs 9420 baud, gets 9600 baud and branch offset 0xF4. |
| Timing.GetTimingNoRateExample | gzml.py:183-184 | 3 MHz with PTB4 low needs 5434 baud, which no standard rate covers. |
| Channel.SendByteBehaviour | gzml.py:94-116 | A byte is written whenever the value is a byte. The send passes exactly when the next two received bytes both equal it. Each failure has its own error: not a byte, no loopback, wrong loopback, no target echo, wrong target echo. The two wrong-echo errors name both the byte sent and the byte received. |
| Channel.RecByteBehaviour | gzml.py:85-91 | A receive takes one byte, or fails with the timeout error on an empty line. It writes nothing. |
| Channel.RunOnReplies | gzml.py:94-116 | On a line that echoes every send twice and answers every receive, an exchange passes, writes exactly its bytes and hands back the answers. |
| Channel.RunPassIsReplies | gzml.py:85-116 | Conversely, an exchange that passes has met such a line: the input began with exactly those echoes and answers. |
| Monitor.ConnectOnTarget | gzml.py:132-141 | Eight 0xFF security bytes are written. Connecting passes exactly when the break character that follows is 0; any other value is the connection failure. |
| Monitor.ConnectPassIsTarget | gzml.py:132-141 | A connection that passes saw sixteen 0xFF echoes followed by a 0 break character. |
| Monitor.ReadMemory | gzml.py:192-219 | A read that passes returns exactly `max(len, 1)` bytes. |
| Monitor.ReadOpsShape | gzml.py:199-214 | READ and the address go out, then one IREAD per two further bytes. For an even length of two or more, one byte more is received than was asked for. |
| Monitor.ReadOnTarget | gzml.py:192-219 | On a correct target the read passes, writes READ, the address and the IREADs, and returns the first `max(len, 1)` bytes the target sent, in order. |
| Monitor.ReadPassIsTarget | gzml.py:192-219 | A read that passes met a correct target and returns a prefix of the target's answers. |
| Monitor.WriteRoundTrip | gzml.py:222-233 | A non-empty write sends 2n+2 bytes: WRITE, the address high byte first, the first byte, then IWRITE before each later byte. The monitor decodes them as exactly those bytes at the 16-bit address. |
| Monitor.WriteOnTarget | gzml.py:222-233 | On a correct target the write passes and consumes exactly the doubled bytes. |
| Monitor.WriteEmptyFails | gzml.py:224-227 | An empty list fails with the index error after WRITE and the address went out. |
| Monitor.WritePassNeedsBytes | gzml.py:227-232 | A write passes only for a non-empty list of bytes. |
| Flash.SelectFlash | gzml.py:299-301 | A block is returned exactly when the length is at most 64; otherwise the result is the too-high-length error. |
| Flash.SelectFlashParses | gzml.py:302-328 | The block has eight bytes: FL1CR/FL1BPR from 0x8000 up, FL2CR/FL2BPR below, then the 16-bit address, the return code preset to 0xEE (it lands at 0x00C6) and the length. |
| Flash.FrameAtStackPointer | gzml.py:281-289 | The frame is written at exactly the stack pointer READSP returned. For an entry address in 0..0xFFFF, the frame holds that address. |
| Flash.RunFromSplit | gzml.py:279-290 | A routine start is READSP, then the frame write and RUN at the slot the two reply bytes name, and stops if READSP fails. |
| Flash.RunFromOnTarget | gzml.py:279-290 | On a correct target: READSP, the frame at SP+1, and RUN go out, and the routine start passes. |
| Flash.RunFromPass | gzml.py:279-290 | A routine start that passes had an entry address in range and read two stack pointer bytes. |
| Flash.CompletionOnTarget | gzml.py:293-296 | After the break character the return code at 0x00C6 is read. The exchange passes exactly when the code is 0; otherwise it reports the routine's error. |
| Flash.HandlerOnTarget | gzml.py:332-341 | The handler exchange on a correct target passes exactly when the routine returns 0, and names the failing check otherwise. |
| Flash.MassEraseOnTarget | gzml.py:331-341 | A mass erase writes the block for length 0 at 0xC0, starts the erase routine and reads the return code. It passes exactly when the code is 0; otherwise it reports the bank's address and the code. |
| Flash.MassErasePassIsZero | gzml.py:331-341 | A mass erase that passes saw a break character and a return code of 0. |
| Flash.DownloadRowOnTarget | gzml.py:343-346 | The row data goes to the buffer at `0x80 + (address & 0x3F)`. The handler exchange for the row's parameter block follows. |
| Flash.RowHandlerOnTarget | gzml.py:345-354 | The row write passes exactly when the routine returns 0; otherwise it reports the row's address and the code. |
| Flash.DownloadRowTooLong | gzml.py:343-345 | More than 64 bytes are refused by `SelectFlash`, but only after the data went into the row buffer. |
| Flash.DownloadRowPass | gzml.py:343-354 | A row write that passes wrote a non-empty row of at most 64 bytes, with an entry address in range, and saw return code 0. |
| Flash.Patch | gzml.py:267 | Python list assignment: the patch passes exactly when the index is within the list, counting negative indices from the end. Otherwise it fails with the index error. |
| Flash.PatchChangesOne | gzml.py:259-267 | The patch changes exactly the byte at `branch_offset - 1 - mass_erase`, to the offset value. |
| Flash.PatchedWriteNeedsByte | gzml.py:267-275 | The patched image reaches the target only if the branch offset is a byte. |
| FlashRows.RowTableShape | gzml.py:452-460 | The table used for the download has 972 descriptors, inside the 64 KiB image and ascending. Every descriptor lies inside one 64-byte flash row. |
| FlashRows.WrittenRowTableShape | gzml.py:452-460 | The table as written has 971 ascending descriptors inside the image. All but the one at 0x1E20 lie inside one flash row; that one has 0x60 bytes and spans two. |
| FlashRows.SameCoverage | gzml.py:457 | Splitting 0x1E20/0x60 at 0x1E40 covers the same addresses. |
| FlashRows.FirstUsed | gzml.py:488-491 | Finds the first programmed address of the descriptor, or reports that the descriptor is all 0xFF. |
| FlashRows.TrimEnd | gzml.py:497-501 | Returns the longest prefix not ending in 0xFF; only 0xFF bytes are dropped. |
| FlashRows.FillRowFacts | gzml.py:487-501 | A row is used exactly when its descriptor holds a non-0xFF byte. A used row starts at the first such address, is the memory from there, and ends on a programmed byte. It stays inside the descriptor, with only 0xFF after its end. An unused row has no data. |
| FlashRows.ScanRow | gzml.py:488-493 | The forward loop starts collecting at the first programmed byte, up to the descriptor's end. |
| FlashRows.TrimRow | gzml.py:497-501 | The backward loop pops 0xFF bytes until the first programmed byte: the collected data without its trailing 0xFF. |
| FlashRows.FillRowAt | gzml.py:487-501 | The fill of one descriptor over the image array is `FillRow` of the image. |
| FlashRows.KeptMembers | gzml.py:504 | The filter keeps exactly the used rows. |
| FlashRows.KeptOrder | gzml.py:504 | The filter keeps the ascending order. |
| FlashRows.FillRows | gzml.py:487-504 | The fill of the whole table over the array, followed by the filter. |
| FlashRows.KeptRowsFacts | gzml.py:487-504 | Every kept row is the fill of a table descriptor and is used, and every used fill is kept. The rows are in ascending address order. |
| FlashRows.WrittenRowTooLong | gzml.py:457 | With the table as written and programmed bytes at 0x1E20 and 0x1E7F, the download gets a 96-byte row, which `SelectFlash` refuses. |
| FlashRows.RowTableRowsFit | gzml.py:452-460 | With the corrected table, every kept row has 1..64 bytes inside the flash row of its start, so `SelectFlash` accepts it. |
| FlashRows.KeptRowsFit | gzml.py:487-504 | Descriptors that each lie inside one flash row give kept rows that also lie inside one. |
| FlashRows.FirstMismatch | gzml.py:516-517 | No mismatch exactly when the read-back starts with the written bytes. Otherwise the result is the first index where they differ. |
| FlashRows.VerifyOutcomeMeaning | gzml.py:516-518 | The verify passes exactly when the read-back starts with the written bytes. A failure names the address of the first difference, with the written and the read-back byte there. |
| FlashRows.VerifyRow | gzml.py:516-518 | The compare loop gives the verify outcome. |
| MemoryImage.ImageContents | gzml.py:469-474 | The image is built exactly when every segment fits in 64 KiB. It then has 65536 bytes; each address holds the byte of the last segment covering it, or 0xFF if none does. |
| MemoryImage.ImageError | gzml.py:472-473 | For the first segment that does not fit, the error names the first address past the image. |
| MemoryImage.ImagePrefixFails | gzml.py:470-474 | Once a segment fails, later segments change nothing. |
| MemoryImage.Image | gzml.py:469 | A built image always has 65536 bytes. |
| MemoryImage.BuildImage | gzml.py:469-474 | The loop over the segments builds exactly `Image` in a fresh 65536-byte array, or returns its error. |
| MemoryImage.WriteSegment | gzml.py:471-474 | Writes the segment's bytes one address at a time: the array becomes `Overlay` of its old contents. |
| HexDump.HexRoundTrip | gzml.py:153-157 | Hexadecimal digits of n parse back to n. |
| HexDump.Hex02RoundTrip | gzml.py:157 | `%02X` of a byte is two digits that parse back to the byte. |
| HexDump.Hex04RoundTrip | gzml.py:153 | `%04X` of an address parses back to the address. It is four characters exactly when the address is at most 0xFFFF. |
| HexDump.HexColumnShape | gzml.py:155-157 | The hex column has three characters per byte: the byte's two digits and a space. |
| HexDump.LineShape | gzml.py:151-163 | Line k shows the 16 (at the end, fewer) bytes from index 16k. The line is the address, a space-bar-space separator, each byte as two digits and a space, spaces to column 55, the separator again, and one character per byte with '.' outside 0x20..0x7E. The address and the bytes parse back from the text. |
| HexDump.LineNoNewline | gzml.py:152-162 | No line contains a newline. |
| HexDump.SplitJoin | gzml.py:164 | Joining lines without newlines, then splitting at the newlines, gives the lines back. |
| HexDump.HexDumpLines | gzml.py:144-164 | No data gives `<empty>`. Otherwise the dump splits into `ceil(len / 16)` lines, line k being the line of the bytes from index 16k. |
| HexDump.ClampDumpLength | gzml.py:530-531 | The length is unchanged when the dump ends by 0x10000, and cut to end there otherwise. A dump from an address up to 0xFFFF reads nothing past 0xFFFF. |
| Session.RowExchangePass | gzml.py:510-519 | One row passes exactly when the row write passes, the read-back passes, and the read-back starts with the row's data. |
| Session.RowsStop | gzml.py:510-519 | Once a row fails, nothing of the later rows goes on the line. |
| Session.Loader.constructor | gzml.py:44-58 | A fresh loader: not connected, no handler image loaded, nothing written. |
| Session.Loader.SendByte | gzml.py:94-116 | Performs one send; the line and the outcome are the send's effect. |
| Session.Loader.RecByte | gzml.py:85-91 | Performs one receive; returns the byte or the timeout error. |
| Session.Loader.Connection | gzml.py:120-141 | Already connected: nothing happens. Otherwise it performs the connect exchange and becomes connected exactly when that passes. |
| Session.Loader.ReadMemoryIntoList | gzml.py:192-219 | Performs the READ/IREAD exchange and returns `ReadMemory` of the line. |
| Session.Loader.WriteMemoryFromList | gzml.py:222-233 | Performs the WRITE/IWRITE exchange. |
| Session.Loader.RunFromAddress | gzml.py:279-290 | Performs READSP, the frame write at the returned stack pointer, and RUN. |
| Session.Loader.WaitForJumpBack | gzml.py:293-296 | Performs one receive that must be the break character 0. |
| Session.Loader.MassEraseFlash | gzml.py:331-341 | Performs the mass erase exchange with the loaded erase entry address. |
| Session.Loader.DownloadRow | gzml.py:343-354 | Performs the row write exchange with the loaded write entry address. |
| Session.Loader.LoadHandler | gzml.py:236-276 | When the handler is already loaded, nothing happens. Otherwise it records the entry addresses and patches the image. A failed patch stops before the line is used; otherwise the flag is set, and the loader connects if needed and writes the patched image at 0x100. |
| Session.Loader.EraseBoth | gzml.py:434-440 | Erases Flash-1 (0xFF80), then Flash-2 (0x1000), stopping at the first failure. |
| Session.Loader.WriteAndVerifyRow | gzml.py:510-519 | Performs the row write, the read-back and the compare of one row. |
| Session.Loader.DownloadRows | gzml.py:510-519 | Performs that for every row in order, stopping at the first failure. |
| Session.Loader.Download | gzml.py:452-519 | The download as written. The loader builds the image from the segments; if a segment lies outside the image, it stops with that error before anything goes on the line. Otherwise it fills the table as the loader builds it, with the single 0x1E20/0x60 descriptor, over the image, and writes and verifies every kept row in order. |
| Session.Loader.CorrectedDownload | gzml.py:452-519 | The same download over the corrected table, whose rows all fit one flash row (`FlashRows.RowTableRowsFit`). |
| Session.Loader.DownloadWith | gzml.py:468-519 | The download over any table inside the image, as the fill of that table followed by the row downloads. |
| Session.RowTooLongFails | gzml.py:343-345 | A row of more than 64 bytes fails with the too-high-length error even on a correct target, after its data went into the row buffer. |
| Session.Loader.Dump | gzml.py:524-532 | Connects if needed, reads the clamped length from the start address and returns the dump text of what was read. |

## Left out

- The command line (`getopt`, the option values, the help text) is left out. The frequency, PTB4, dump start and length are parameters.
- Opening and closing the serial port, the baud rate setting and the one-second timeout are left out. The line is the sequence of bytes it will deliver; when it is empty, the read has timed out.
- The optional sleep and flushes of `comsleep_ms` are left out. With the default of 0 (gzml.py line 43) they do nothing. With a positive value, `ser.flushInput()` (gzml.py lines 98-99) drops any bytes pending before each send; a correct target never leaves any.
- The keypress before connecting is left out, including the exit on ESC.
- All printed text is left out: progress messages, the verbose read progress and the error texts with their traceback. Each error is an `Error` value, and an exit is a failed outcome that every caller passes on.
- Parsing the S19 file (`bincopy`) is left out. The image is built from its segments, given as address and data.
- Reading `loader.s19` and searching `loader.lst` are left out. The handler image and the three symbol addresses are parameters of `LoadHandler`, which takes the branch-offset symbol before the `- 1` of line 259. A missing symbol, `None` in the loader, is not modelled.
- Writing `mem.dump` is left out. Its text is `HexDumpMemory` of the whole image at address 0.
- The top-level order of operations is not one member: connect, erase, download, then dump. Each step is a method of `Loader`.
- Floating point is stated as exact arithmetic. This covers `int(fb / 552.)`, the 0.98/1.02 tolerance test and `int(fb / 400000 - 3)`.
- Session.Loader.constructor: the two entry addresses start at 0, where the loader has `None` until the handler is loaded.
- MemoryImage.WriteSegment: past the end of the image, the contract gives only the error, not the partly written array, because the loader exits there.

## Findings

| source | as written | input that shows it | evidently intended | confidence | as-written member | corrected member |
|---|---|---|---|---|---|---|
| gzml.py:457 | The row descriptor at 0x1E20 has `rowlen` 0x60, so it spans the flash rows 0x1E00..0x1E3F and 0x1E40..0x1E7F. | An image with programmed bytes at 0x1E20 and 0x1E7F gives a 96-byte row. `SelectFlash` refuses it with "too high length" after the data already went into the 64-byte row buffer. | Two descriptors, 0x1E20/0x20 and 0x1E40/0x40, like every other descriptor inside one flash row. They cover the same addresses. | not executed | FlashRows.WrittenRowTooLong | FlashRows.RowTableRowsFit |

`Session.Loader.Download` models the download as written, over the table with the 0x1E20/0x60 descriptor. On a correct target, `Session.RowTooLongFails` shows that such a row fails. `Session.Loader.CorrectedDownload` is the same download over the corrected table.
