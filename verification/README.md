# bindump core in Dafny

bindump is a hex-dump tool for the ZX Spectrum Next. Its core turns one frame of bytes into one text line, or saves it to a file:

- the frame is a run of `uiStride` bytes read from address `uiAddr`;
- only the bytes inside the window `[uiLower, uiUpper)` are shown;
- the line is the address, a hex column and a character column, in one of four layouts chosen by the screen width (85, 80, 64 and 32 columns).

This project models that core and proves properties of the model. It also models the command-line front end that selects the action.

| file | module | models |
|---|---|---|
| `types.dfy` | `Types` | C integer widths (`uint8`, `uint32`, wrap-around made explicit), 8-bit characters, `Option` for pointers that may be null, the error codes `EOK`/`EINVAL`/`EBADF` |
| `hex.dfy` | `Hex` | `nibble2hex` and `byte2hex` (src/bindump.c), plus a decoder used to state the round trip |
| `render.dfy` | `Render` | `renderFrame` and its four layout helpers (src/render.c) |
| `render_props.dfy` | `RenderProps` | properties of rendered lines, and the 64-column layout as written and as corrected |
| `save.dfy` | `Save` | `saveFrame`, `saveFrame_hex`, `saveFrame_raw` (src/save.c); the raw range as written and as corrected |
| `cli.dfy` | `Cli` | `parseArguments` and the action dispatch of `main` (src/main.c) |

Modelling choices:

- **Window test.** `between_uint32(a, lower, upper, 1)` is read as the half-open test `lower <= a < upper`. `between_uint8(b, cFIRST_CHAR, cLAST_CHAR)` is read as inclusive. Both library functions are outside the repository.
- **Address arithmetic.** `uiAddr + i` is uint32 arithmetic, so it wraps modulo 2^32 (`AddrAt`).
- **Line length.** The stored `uiLen` is the line length truncated to uint8 (`ToUint8`).
- **Printable range.** The printable range is `0x20..0x8F`, as `cLAST_CHAR` in inc/render.h defines it.
- **Field names.** The renderer and saver read the frame through `uiData`, `uiStride`, `uiAddr`, `uiLower` and `uiUpper`. The `readbuffer_t` declared in inc/bindump.h has a `pBuffer` field and no `uiData`. The model follows the field names the .c files use. `renderbuffer_t` is declared in neither inc/bindump.h nor inc/render.h. Its fields, a character array `acData` and a uint8 `uiLen`, are taken from their uses in render.c and save.c.
- **Frame buffer.** `uiData` may hold more than `uiStride` bytes.
- **Render buffer.** The buffer keeps whatever it held before. The 64-column layout can leave such characters in the line.
- **Output device.** `esx_f_write` is a `Sink`. It accepts as many of the requested bytes as it has room for and reports that count.
- **Memory past the frame buffer.** The raw save path can read past the frame buffer. The memory that follows the buffer is a parameter, `following`.
- **Pointers.** A null pointer is `None`, or `Null` for `byte2hex`'s output pointer.
- **Argument strings.** argv strings are modelled as Dafny strings without their terminating NUL.
- **Truncated length.** `uiLen` can be smaller than the line: from stride 62 in the wide layouts. The text saver then writes only `uiLen` characters, and the model does the same (`Save.TruncatedLineSaved`).

## Model

| member | source | states |
|---|---|---|
| Hex.NibbleToHex | src/bindump.c:89-93 | the result is an uppercase hex digit whose value is the low nibble of the argument |
| Hex.ByteToHex | src/bindump.c:103-104 | two uppercase digits, the high nibble's first and the low nibble's second |
| Hex.ByteToHexRoundTrip | src/bindump.c:99-109 | decoding the two digits byte2hex writes gives the byte back |
| Hex.DecodeHexPairSound | src/bindump.c:99-109 | every decodable digit pair is the byte2hex output of the byte it decodes to, so the encoding is onto the digit pairs |
| Hex.ByteToHexInjective | src/bindump.c:99-109 | distinct bytes give distinct digit pairs |
| Hex.Byte2Hex | src/bindump.c:99-109 | a null pointer gives EINVAL and leaves memory alone; otherwise EOK, the two cells at the pointer decode to the byte, and every other cell is unchanged |
| Render.AddressText | src/render.c:153-155 | the six-character prefix decodes pairwise to address bits 23-16, 15-8 and 7-0 |
| Render.CharColumn | src/render.c:222-232 | the character column has one cell per position: the glyph inside the window, a space outside |
| Render.HexSpaced | src/render.c:202-216 | in the 85-column hex column, each position is a space followed by its two hex cells |
| Render.HexTrailing | src/render.c:260-274 | in the 80-column hex column, each position is its two hex cells followed by a space |
| Render.HexPacked | src/render.c:375-387 | in the 32-column hex column, each position is its two hex cells with no space |
| Render.HexGroupedAt | src/render.c:315-335 | 64-column group `q` covers positions 2q and 2q+1: the even cells, then the odd cells (nothing written when 2q+1 is outside the window), then a space |
| Render.LayoutFor | src/render.c:157-172 | the chosen layout is the widest one whose minimum width (85, 80, 64 or 0 columns) the screen meets |
| Render.LineLengthMonotone | src/render.c:157-176 | a wider screen never gets a narrower layout, nor a shorter line for the same stride |
| Render.Line85 | src/render.c:187-238 | the 85-column text after the prefix; what it emits is stated by `Render.Line85IsWide` |
| Render.Line80 | src/render.c:244-295 | the 80-column text after the prefix; stated by `Render.Line80IsWide` and `Render.Line85EqualsLine80` |
| Render.Line32 | src/render.c:361-407 | the 32-column text after the prefix; stated by `Render.Line32IsNarrow` |
| Render.Cells64 | src/render.c:301-355 | the 64-column cells after the prefix, some of them left unwritten; stated by `Render.Cells64IsMedium` |
| Render.LayoutCells | src/render.c:157-172 | each layout's text, with the address prefix added, has the layout's line length (11+4n, 8+n+5*ceil(n/2) or 8+3n) |
| Render.Line85IsWide | src/render.c:187-238 | the 85-column layout emits ` \|`, ` hh` per position, ` \| `, then the glyphs |
| Render.HexTrailingShift | src/render.c:199-220 | a space before each cell pair equals a space after each cell pair, shifted by one character |
| Render.Line85EqualsLine80 | src/render.c:244-295 | the 80-column layout emits exactly the same text as the 85-column layout |
| Render.Line80IsWide | src/render.c:244-295 | the 80-column layout meets the same description as the 85-column one |
| Render.Line32IsNarrow | src/render.c:361-407 | the 32-column layout emits `\|`, packed cell pairs, `\|`, then the glyphs |
| Render.Cells64IsMedium | src/render.c:301-355 | applied to the buffer, the 64-column cells give `\|`, five characters per pair of positions, `\|`, then the glyphs; an out-of-window odd position's cells keep the buffer's earlier characters |
| Render.Draw | src/render.c:145-177 | the buffer after a successful rendering; stated by `Render.DrawShows` |
| Render.DrawShows | src/render.c:145-177 | the rendered buffer shows the address, the layout's text, a NUL after the line, the rest of the buffer untouched, and the length as a uint8 |
| Render.RenderFrame | src/render.c:138-181 | EOK exactly when screen, frame and render buffer are all present; otherwise EINVAL with the buffer unchanged; on EOK the buffer holds the rendered line |
| RenderProps.WideTextUnique | src/render.c:187-295 | the wide-layout description determines the text completely |
| RenderProps.NarrowTextUnique | src/render.c:361-407 | the narrow-layout description determines the text completely |
| RenderProps.AddressUnique | src/render.c:153-155 | the address determines the six prefix characters |
| RenderProps.AddressPrefixRoundTrip | src/render.c:153-155 | the prefix read back as a number is the address modulo 2^24 |
| RenderProps.HexCellRoundTrip | src/render.c:206-215 | a hex cell pair decodes exactly when its position is in the window, and then to the frame's byte; otherwise it is two spaces |
| RenderProps.WideLineRecoversBytes | src/render.c:202-216 | from a wide line's hex column, a position decodes exactly when it is in the window, and then to its byte |
| RenderProps.CharCellReadBack | src/render.c:222-232 | a non-space cell lies in the window; a cell other than space and `.` is a printable in-window byte itself; inside the window, the cell equals the byte exactly when the byte is printable |
| RenderProps.WideLineShowsGlyphs | src/render.c:222-232 | the same read-back on a wide line's character column: a non-space glyph lies in the window, an in-window glyph is its byte exactly when printable, and a non-printable one is `.` |
| RenderProps.RenderIgnoresPrior | src/render.c:138-181 | except in the 64-column layout, two renderings of the same frame at the same width give the same line, NUL and length, whatever the buffers held |
| RenderProps.LineLengthFits | src/render.c:176 | up to stride 61, every layout's line length fits in uint8, so `uiLen` is exact |
| RenderProps.Medium64KeepsStaleCells | src/render.c:328-332 | as written, an out-of-window odd position's two cells in a 64-column line equal what the buffer held there, not blanks |
| RenderProps.HexGroupedBlankedAt | src/render.c:315-335 | in the corrected 64-column hex column, group `q` holds both positions' cells (blank outside the window) and a space |
| RenderProps.Counter64Value | src/render.c:315 | the uint8 loop counter after `128a + b` steps is `2b`: it wraps to 0 every 128 steps |
| RenderProps.Loop64NeverEnds | src/render.c:315 | the counter stays below 255, repeats every 128 steps and goes from 254 to 0, so the test `i < 255` never fails |
| RenderProps.Visits64Pairs | src/render.c:315 | the intended loop visits positions 0, 2, 4, ... below the stride, one per pair of positions |
| RenderProps.Line64BlankedIsBlanked | src/render.c:301-355 | the corrected 64-column line writes every cell, with blanks outside the window |
| RenderProps.Medium64AgreesWhenCovered | src/render.c:301-355 | when every odd position is in the window, the as-written 64-column line equals the corrected one |
| Save.Write | src/save.c:136 | the device accepts at most the requested bytes and at most its room; a short count equals the room; the accepted prefix is appended |
| Save.SaveFrameHex | src/save.c:126-157 | a missing buffer or file gives EINVAL; the invalid handle gives EOK with nothing written; otherwise the first `uiLen` characters and a newline are written, or EBADF after a short write |
| Save.SaveFrameRaw | src/save.c:163-193 | a missing frame or file gives EINVAL; the invalid handle gives EOK with nothing written; otherwise `len` bytes from `&uiData[from]` are written, or EBADF after a short write |
| Save.SaveFrame | src/save.c:103-120 | a render buffer selects the text path and its absence the raw path; the result is EOK, EINVAL or EBADF; output is only ever appended |
| Save.RawRange | src/save.c:175-179 | the raw range as written; stated by `Save.RawRangeInterior`, `Save.RawRangeLastFrame` and `Save.RawLastFrameCounterexample` |
| Save.BufferSlice | src/save.c:181 | the bytes handed to the device are the frame buffer from the start offset on, continuing into the memory that follows it |
| Save.ClippedRange | src/save.c:175-179 | the corrected raw range lies within the frame; for a frame that does not wrap past 2^32, a position is in it exactly when that position is in the window |
| Save.RawRangeInterior | src/save.c:175-179 | for a frame that ends before the window does, `to` is the stride; if the frame also reaches the window (starts at or after `uiLower`, or at most a stride before it), the range as written is the corrected range; if it starts more than a stride but less than 256 bytes before the window, the corrected range is empty but the range as written is not |
| Save.RawRangeLastFrame | src/save.c:175-179 | for a frame that starts in the window and crosses its end without wrapping, `from` is 0 like the corrected start, `len` and the corrected end add up to the stride, and they agree only when the window ends exactly mid-frame |
| Save.RawLastFrameCounterexample | src/save.c:175-181 | stride 8 at address 0 over window [5, 8): the code writes 251 bytes from position 5, reading past the 8-byte frame, instead of positions 5-7 |
| Save.RawAlignedFrameWritesNothing | src/save.c:175-179 | a 16-byte frame that is exactly the window gets `len` 0, so nothing is saved |
| Save.RawInteriorWritesWindow | src/save.c:163-193 | saving a frame that ends before the window does and reaches it writes exactly its in-window bytes, in order |
| Save.SaveFrameRawClipped | src/save.c:163-193 | the corrected raw path writes the clipped range of the frame, or a prefix of it and EBADF when the device is short of room |
| Save.RawClippedWritesWindow | src/save.c:163-193 | the corrected raw path writes the frame's bytes at exactly the in-window positions, in order |
| Save.RenderedLengthTruncated | src/render.c:174-176 | at 80 or more columns with stride 62 or more, rendering succeeds and stores `uiLen` as the line length `11 + 4n` modulo 256, which is less than the line |
| Save.TextSavedWhole | src/save.c:126-157 | with room for the line, the text path writes the first `uiLen` characters and a newline, `uiLen + 1` bytes in all |
| Save.TruncatedLineSaved | src/save.c:136 | saving such a rendered line writes `(11 + 4n) mod 256` characters and a newline, fewer than the line holds |
| Cli.Classify | src/main.c:241-279 | `-h` matches in either case; `-v`, `-q` and `-f` match exactly; an argument without a leading `-` is an operand; any other is unknown |
| Cli.FirstUnknown | src/main.c:237-282 | the index of the first unknown option, with none before it |
| Cli.Scan | src/main.c:237-282 | the option loop; stated by `Cli.ScanMeaning` |
| Cli.ScanMeaning | src/main.c:237-282 | the scan fails exactly when an unknown option occurs; the action is that of the last `-h`/`-v` before it; quiet and force are set by a `-q`/`-f` before it and never cleared |
| Cli.ParseArguments | src/main.c:229-301 | EINVAL exactly when some argument after argv[0] is an unknown option; the action is the last `-h`/`-v` before the first unknown option, or DUMP; the flags are only ever set |
| Cli.ScanStopsAtUnknown | src/main.c:269-274 | arguments after the first unknown option are never read |
| Cli.ParseStopsAtUnknown | src/main.c:269-274 | whatever follows an unknown option, the parse result is the same |
| Cli.Main | src/main.c:195-223 | the exit code is EOK exactly when no argument is an unknown option, and EINVAL otherwise; an action runs only then, and it is the last `-h`/`-v` or DUMP |

## Left out

- src/read.c (`readFrame`) is not part of this model. The frame is a parameter: the memory, logical/physical page mapping and file reading behind it are I/O.
- The frame loop that steps `uiAddr` by the stride, and the alignment of the window to the stride, are left out. `dumpData` in src/main.c does nothing but return EOK, so no loop is visible in the code.
- The text printed by `showHelp` and `showInfo` is console output and is not modelled. Only their return value, EOK, is.
- `_construct` and `_destruct` save and restore the CPU speed register; this is hardware state and is left out. `_construct` is modelled only as the initial state (no action, no flags).
- `zxn_strerror`, which turns a non-EOK exit code into an exit status, is outside the repository. `Cli.Main` returns the error code itself.
- The `unknown option` message printed on stderr is console output and is not modelled.
- The `__DEBUG__` build's zeroing of the render buffer is left out. The model follows the release build, where the buffer keeps its earlier contents.
- `between_uint32` and `between_uint8` are outside the repository. Their half-open and inclusive readings are assumptions.
- `INV_FILE_HND` is defined outside the repository. The model assumes 0xFF; only its distinctness from open handles matters.
- The `#if 0` count option in `parseArguments`, and the `#else` branch that picks a screenshot action, are compiled out and are not modelled.
- Render.RenderFrame: the 64-column layout loop never ends for stride 255 (see Findings). `Renderable` therefore requires stride < 255 for that layout, instead of modelling non-termination.
- Render.RenderFrame: `Renderable` requires the frame and render buffers to be large enough for every index the chosen layout touches, including `uiData[stride]` for an odd stride in the 64-column layout. The C code indexes fixed arrays without checks.

## Findings

| source | as written | input that shows it | evidently intended | confidence | as-written member | corrected member |
|---|---|---|---|---|---|---|
| src/save.c:176-179 | `uiTo` is `(uiAddr + uiStride) - uiUpper` when the frame reaches the window's end, and `uiLen = uiTo - uiFrom` in uint8 | stride 8, address 0, window [5, 8): `uiFrom` 5, `uiTo` 0, `uiLen` 251, so 251 bytes are written from `&uiData[5]`, past the 8-byte frame; a 16-byte frame equal to the window writes nothing | `uiTo = uiUpper - uiAddr`, the in-window end of the frame, so the last frame writes its in-window bytes | high, not executed | Save.RawLastFrameCounterexample | Save.SaveFrameRawClipped |
| src/render.c:315 | the 64-column loop counter `i` is a uint8 stepped by 2 while `i < uiStride` | stride 255 at 64-79 columns: `i` runs 252, 254, 0, 2, ... and never reaches 255, so the loop never ends and writes past the buffer | stop after the 128 pairs of positions below the stride | high, not executed | RenderProps.Loop64NeverEnds | RenderProps.Visits64Pairs |
| src/render.c:328-332 | when position `i + 1` is outside the window, the 64-column layout skips its two cells without writing them | stride 2, address 0, window [0, 1), byte 0x41 at position 0, a buffer holding 'X's: the hex column reads `41XX ` instead of `41   ` | write two spaces, as for the even position and in every other layout | high, not executed | RenderProps.Medium64KeepsStaleCells | RenderProps.Line64BlankedIsBlanked |

`Render.RenderFrame` and `Save.SaveFrame` model the code as written. The corrected definitions sit beside them, with their intended properties proved:

- `Save.ClippedRange`, `Save.SaveFrameRawClipped` and `Save.RawClippedWritesWindow` give the corrected raw range: every in-window byte of the frame, and nothing else.
- `RenderProps.Line64BlankedIsBlanked` gives the corrected 64-column line, which writes every cell.
- `RenderProps.Medium64AgreesWhenCovered` shows that the two 64-column versions coincide whenever no odd position falls outside the window.
- `Save.RawRangeInterior` shows the same kind of agreement for interior frames on the raw path.
