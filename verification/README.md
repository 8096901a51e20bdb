# SSD1306 OLED driver core, in Dafny

This project models the logic of a Linux kernel driver for the SSD1306, a 128x64 monochrome OLED controller driven over I2C. The model covers three pieces:

- **Framebuffer and controller protocol** (`ssd1306-drv.c`), in `framebuffer.dfy` and `protocol.dfy`:
  - setting a pixel in the display buffer;
  - the bring-up command sequence;
  - flushing the buffer to the panel;
  - the charge-pump and display-power toggles.
- **Character mode** (`ssd1306-cmode.c`), in `charmode.dfy`: sizing a text grid from the font and the resolution, and cutting a string into that grid.
- **Glyph rasterisation** (`ssd1306-font.c`), in `font.dfy`: drawing one 8x8 bitmap character.

`commands.dfy` holds the command set of `ssd1306-cmds.h` as a datatype, with its wire encoding. It also holds a decoder, which is a device of the model: the driver never reads commands back. The decoder exists only to state that the encoding is unambiguous and that each toggle sends the command it was asked for. `errors.dfy` holds the shared error and result types. `Commands.Encode` is covered by the three `Commands` rows of the table below. `send_cmd` is `Protocol.SendCmd`, which is covered by the `Protocol.SendAll` row.

**How the bus is modelled.** The bus is an oracle. `bus(i)` is what `i2c_smbus_write_byte_data` returns for the i-th command byte put on the wire during one operation. `i2c_master_send` becomes a parameter holding its return value. The observable output of an operation is the trace of command bytes it puts on the wire, plus its status.

**How errors are modelled.** A handle with no I2C client makes `send_cmd` return `-ENXIO` and send nothing. The driver's `err |= ...` chains are modelled as a bitwise OR of the 32-bit results, so a step fails exactly when one of its calls fails, and every byte of the step is still sent. Bus failures keep the raw value the driver returns; the errors the driver raises itself (`EPERM`, `EINVAL`, `EIO`, `ERANGE`) are kept abstract.

**Constants.** Resolution 128x64, 8 rows per page. The buffer holds 1025 bytes: a header byte, then 8 pages of 128 columns. `SSD1306_HORIZONTAL_MAX`, `SSD1306_VERTICAL_MAX`, `SSD1306_CELL_CAPACITY` and `DISP_BUFF_SIZE` are defined in a header that is not part of this model. The values used here follow from the hard-coded window (columns 0..127, pages 0..7), from the multiplex ratio 0x3F, and from the flush sending byte 0 as the data control byte ahead of the pixel data. Command byte values are those of `ssd1306-cmds.h`, which match section 9 of the SSD1306 datasheet.

**Behaviour of the code worth knowing:**

- `draw_pxl` stores pixel (x, y) at byte `x + (y / 8) * 128`, with no offset for the header byte (see Findings). `DrawPixelAsWritten` models it as written and `DrawPixel` is the corrected setter. `SetPixel` takes the layout as a parameter, and glyph drawing is stated for both layouts. `Font.PrintChar(AsWritten, ...)` is `print_char` as it stands.
- `cut_str` never consumes a newline or any other non-printable byte, so everything after it on the grid is blank: "Hi\nBob" shows "Hi" and returns 2. See `CharMode.CutNewline` and `CharMode.CutText`. Its own comment asks for the byte to be skipped and a new line started; see Findings. `CharMode.CutSkipping` is that corrected cut.
- `draw_pxl` and `print_char` return `-EPERM` for coordinates off the screen.

## Model

| member | source | states |
|---|---|---|
| Commands.DecodeEncode | ssd1306-cmds.h:5-34 | the model's decoder (the driver has none) recovers every command from its wire bytes, so the opcode values of the table leave each command readable |
| Commands.EncodeDecode | ssd1306-cmds.h:5-34 | any byte group the model's decoder accepts is exactly the encoding of the decoded command |
| Commands.EncodeInjective | ssd1306-cmds.h:5-34 | two different commands never put the same bytes on the wire |
| Framebuffer.DrawPixelAsWritten | ssd1306-drv.c:40-79 | a null handle, a negative coordinate, x >= 128 or y >= 64 returns EPERM with the handle unchanged; otherwise it returns 0 and sets exactly bit y % 8 of byte x + (y / 8) * 128, with every other bit of every byte unchanged |
| Framebuffer.RangeGuardUnreachable | ssd1306-drv.c:66-74 | for every on-screen pixel the computed cell is inside the buffer, so the ERANGE branch can never be taken |
| Framebuffer.OrIn | ssd1306-drv.c:68-76 | ORing the bit into the cell adds that one bit and leaves every other byte as it was |
| Framebuffer.DrawPixel | ssd1306-drv.c:40-79 | the same rejections with EPERM; an on-screen pixel becomes lit, every other pixel and the header byte keep their state, and the client binding is kept |
| Framebuffer.PixelsDetermineFrame | ssd1306-drv.c:66-68 | under either layout the page/column/bit arithmetic covers every byte but one (the header with the offset, the last byte as written): two frames that agree on that byte and on every pixel are equal |
| Framebuffer.AsWrittenAddsPixel | ssd1306-drv.c:66-76 | read in its own cell arithmetic, the as-written setter lights exactly the drawn pixel, keeps every other pixel, and never touches the last byte of the buffer |
| Framebuffer.AsWrittenShift | ssd1306-drv.c:66-67 | a pixel stored as written shows on the panel one column to its left, or for column 0 in the last column of the page above; column 0 of page 0 is stored in the header byte |
| Framebuffer.SetPixel | ssd1306-drv.c:40-79 | for either layout: the EPERM rejections with the handle unchanged; otherwise 0, the client kept, the byte no pixel maps to kept, and an on-screen pixel lit exactly when it was lit before or is the drawn one |
| Framebuffer.DrawPixelIdempotent | ssd1306-drv.c:76 | drawing the same pixel twice gives the same result as drawing it once, since bits are only ORed in |
| Framebuffer.DrawPixelAsWrittenIdempotent | ssd1306-drv.c:76 | the as-written pixel setter is idempotent too |
| Framebuffer.RepairHeader | ssd1306-drv.c:119-122 | the flush forces byte 0 to 0x40, leaves every other byte alone, and changes nothing when byte 0 is already 0x40 |
| Framebuffer.DrawnPixelReachesPanel | ssd1306-drv.c:119-125 | a pixel drawn with the header offset is still lit in the frame handed to the transfer |
| Framebuffer.AsWrittenPixelLost | ssd1306-drv.c:66-122 | as written, pixel (0, 0) changes the buffer, but after the header repair the transferred frame is the same as if it had never been drawn |
| Protocol.SendAll | ssd1306-drv.c:11-26 | with a bound client every byte of a step goes on the wire in order and the step's result is the OR of the call results; without one nothing is sent and the result is -ENXIO |
| Protocol.OrResultsZero | ssd1306-drv.c:165-167 | an ORed step result is zero exactly when every call of the step returned zero |
| Protocol.RunSteps | ssd1306-drv.c:159-229 | an unbound handle fails at the first step with -ENXIO and sends nothing; a completed run has put every step's bytes on the wire |
| Protocol.RunStepsSucceed | ssd1306-drv.c:159-229 | when every call succeeds the run completes with every byte of every step on the wire |
| Protocol.RunStepsOk | ssd1306-drv.c:159-229 | a run that completes had every one of its calls succeed |
| Protocol.RunStepsAbort | ssd1306-drv.c:159-229 | a run whose first failing step is k stops with the bytes of steps 0..k on the wire, nothing later, and returns step k's ORed result |
| Protocol.RunStepsAgree | ssd1306-drv.c:159-229 | a run depends only on the results of the calls it makes |
| Protocol.Probe | ssd1306-drv.c:152-156 | the NOP probe sends one byte 0xE3 when a client is bound and nothing otherwise |
| Protocol.InitHw | ssd1306-drv.c:146-238 | without a client, or when the probe fails, bring-up returns EIO whatever the bus said; a failed probe leaves only the NOP byte on the wire |
| Protocol.ConfigTrace | ssd1306-drv.c:159-233 | the probe, the configuration steps and display-on together are the bytes E3 AE A8 3F D3 00 40 A0 C0 DA 02 81 FF A4 D5 80 8D 14 AF |
| Protocol.InitHwSucceeds | ssd1306-drv.c:152-237 | bring-up returns 0 exactly when a client is bound and the first 18 calls succeed; the trace is then the full 19-byte sequence |
| Protocol.InitHwAbort | ssd1306-drv.c:159-229 | if configuration step k is the first to fail, the trace ends with all bytes of step k, no later step is sent, and step k's ORed result is returned |
| Protocol.InitHwMultiplexFails | ssd1306-drv.c:165-170 | a failing multiplex-ratio step leaves E3 AE A8 3F on the wire and returns the OR of its two results |
| Protocol.InitHwIgnoresDisplayOn | ssd1306-drv.c:233-237 | the result of the final display-on call is discarded: buses that agree on the first 18 calls give the same bring-up |
| Protocol.Display | ssd1306-drv.c:89-136 | a null handle gives EPERM with nothing sent; a flush that transfers nothing fails and leaves the handle unchanged; otherwise the frame handed over is the stored one with byte 0 repaired, the handle keeps that frame, a negative transfer result is returned and any non-negative count, short or not, gives 0 |
| Protocol.DisplayAbort | ssd1306-drv.c:96-117 | if window step k is the first to fail, the flush stops after that step's bytes, transfers nothing, leaves the handle unchanged and returns that step's ORed bus result |
| Protocol.DisplayColumnWindowFails | ssd1306-drv.c:103-109 | a failing column-window step leaves 20 00 21 00 7F on the wire and returns the OR of its three results |
| Protocol.WindowBytes | ssd1306-drv.c:96-113 | the window set-up is the bytes 20 00 21 00 7F 22 00 07 |
| Protocol.DisplaySends | ssd1306-drv.c:96-125 | the frame goes out exactly when a client is bound and all eight window calls succeed; the window bytes are then all on the wire and every pixel of the buffer is in the frame sent |
| Protocol.DisplayUnbound | ssd1306-drv.c:96-101 | a handle without a client fails at the first window step with -ENXIO, sends nothing and transfers nothing |
| Protocol.DisplayTwice | ssd1306-drv.c:119-125 | a second flush after a successful one sends the same frame and leaves the handle as it was |
| Protocol.EnableChargePump | ssd1306-drv.c:250-264 | a null handle gives EPERM; with a client the wire gets 8D then 14 (enable) or 10 (disable), and the call returns 0 exactly when both calls return 0, otherwise their OR; without a client it returns -ENXIO and sends nothing |
| Protocol.EnableDisplay | ssd1306-drv.c:274-284 | a null handle gives EPERM; with a client the wire gets one byte, AF (on) or AE (off), and the call returns that call's result; without a client it returns -ENXIO |
| Protocol.TogglesDecode | ssd1306-drv.c:257-283 | the bytes either toggle sends decode back to the charge-pump or display-power command it was asked for |
| CharMode.Setup | ssd1306-cmode.c:27-77 | a null structure, a font taller than the display or wider than the display gives EINVAL with nothing written; otherwise max_cols and max_lines are the largest counts of (font width + 1)-pixel cells and font-height lines that fit, max_buff_size is their product, and there are max_lines zeroed lines of max_cols + 1 bytes |
| CharMode.SetupDefaultFont | ssd1306-cmode.c:49-51 | the 8x8 font on the 128x64 panel gives 14 columns, 8 lines and 112 characters |
| CharMode.PrintableRun | ssd1306-cmode.c:10 | the run has only ALFANUM characters (0x20..0x7E) and is ended by the end of the string or by a non-printable byte |
| CharMode.BlankRest | ssd1306-cmode.c:141-144 | once the string has no printable characters left, the rest of the line is zeroed |
| CharMode.CutLine | ssd1306-cmode.c:130-155 | one line pass fills the line with its share of the printable prefix, then zeros, and advances the counter to min(prefix, cells so far) |
| CharMode.CutStr | ssd1306-cmode.c:117-159 | a null string or structure gives EINVAL and changes nothing; otherwise every character cell is rewritten as in the reference cut, terminator slots are untouched, and the count is min(p, max_cols * max_lines), where p is the length of the printable prefix |
| CharMode.CutText | ssd1306-cmode.c:130-158 | the grid, read row-major over columns 0..max_cols-1, is the copied prefix followed by zeros: text wraps across lines and nothing after the first non-printable byte is shown |
| CharMode.CutIdempotent | ssd1306-cmode.c:130-156 | cutting the same string twice gives the same grid as once |
| CharMode.CutForgetsContent | ssd1306-cmode.c:133-155 | the result does not depend on what the grid held before, apart from its untouched terminator slots |
| CharMode.CutKeepsTerminators | ssd1306-cmode.c:141-153 | after setup and any cut, every line is still NUL-terminated at max_cols, and every cell is zero or printable |
| CharMode.CutHello | ssd1306-cmode.c:117-159 | "Hello" on a 10x2 grid gives "Hello" and zeros on line 0, a blank line 1, and a count of 5 |
| CharMode.CutNewline | ssd1306-cmode.c:141-150 | "Hi\nBob" on a 10x2 grid gives "Hi" and zeros on line 0, a blank line 1, and a count of 2 |
| CharMode.CutEmpty | ssd1306-cmode.c:117-159 | the empty string blanks a 10x2 grid and returns 0 |
| CharMode.NewlineStartsLine | ssd1306-cmode.c:136-144 | with the corrected cut, a printable word followed by a line feed or any other non-printable, non-NUL byte fills its line with the word and zeros; the byte is consumed, and what follows it starts the next line |
| CharMode.TwoShortLines | ssd1306-cmode.c:136-150 | with the corrected cut, two short printable words separated by such a byte land on two lines, one word each, and the count is the sum of their lengths |
| CharMode.SkippingCells | ssd1306-cmode.c:130-155 | with the corrected cut, a string of printable characters is read row-major: cell c of line l holds character `Cells(cols, l) + c`, or zero past the end, and `CharMode.CellsProduct` shows that index is l * cols + c |
| CharMode.CutSkippingPrintable | ssd1306-cmode.c:130-158 | on a string without non-printable bytes, the corrected cut fills every character cell as the cut as written does and returns the same count |
| CharMode.CutSkippingNewline | ssd1306-cmode.c:136-150 | with the corrected cut, "Hi\nBob" on a 10x2 grid gives "Hi" and zeros on line 0, "Bob" and zeros on line 1, and a count of 5 |
| Font.ShiftedTopBit | ssd1306-font.c:74-77 | testing 0x80 after shifting the row byte left col times reads bit 7 - col, so the most significant bit is the leftmost pixel |
| Font.DrawStep | ssd1306-font.c:73-78 | for either pixel layout, visiting column col of a glyph row lights that one pixel if it is inked and on screen, and leaves every other pixel alone |
| Font.DrawRow | ssd1306-font.c:73-78 | for either layout, a glyph row is ORed into the frame left to right; off-screen pixels are skipped, and the client and the byte no pixel maps to are kept |
| Font.PrintChar | ssd1306-font.c:22-82 | a null handle, an off-screen origin or a missing font gives EPERM and draws nothing. Otherwise it returns 0, and each on-screen pixel is lit exactly when it was lit before or lies in the 8x8 box at (x, y) with its glyph bit set. Nothing outside the box changes and no pixel is cleared. This holds in the layout of the pixel setter used: with `AsWritten`, as the driver stands, a pixel is bit (y+row) % 8 of byte (x+col) + ((y+row) / 8) * 128 |

## Left out

- `ssd1306-i2c.c` is not part of this model: module init and exit, I2C driver registration, the character device and class, and the global device list. This is lifecycle and I/O plumbing.
- The bus transport itself (`i2c_smbus_write_byte_data`, `i2c_master_send`) is replaced by the result oracle and the byte trace. Logging (`LOG`) is dropped.
- `i2c_master_send` is never reached without a client in the model, because a failing window step returns first; the model keeps no separate case for it.
- Setup's allocation is not modelled: `kmalloc` failure, the rollback and `-ENOMEM`, the undersized `memset` of the line-pointer array, and its use before the null check. Setup always allocates successfully here.
- `ssd1306_cmode_free` is not modelled: memory management is outside a value model.
- CharMode.Setup: requires a non-negative font width and a positive font height. A font height of 0 or a font width of -1 makes the C divide by zero. Other negative font sizes compute the counts by truncating division with negative operands. The model does not accept these degenerate fonts.
- The kernel font table contents and `get_default_font` are an oracle: `None`, or a table from character code to eight row bytes.
- Font.PrintChar: takes the character as an unsigned byte, so the negative table index a signed `char` above 0x7F would produce is not modelled.
- `ssd1306_print_str` is declared in `ssd1306-font.h` but its body is not part of this model.
- The `mutex` in `struct ssd1306`: the model is sequential.
- The flush logs but does not return a short transfer, so the model drops it. Only the sign of the `i2c_master_send` result matters.

## Findings

| source | as written | input that shows it | evidently intended | confidence | as-written member | corrected member |
|---|---|---|---|---|---|---|
| ssd1306-drv.c:67 | `cell_addr = x + row * SSD1306_HORIZONTAL_MAX`, with no offset for the header byte that occupies `disp_buff[0]` | `ssd1306_draw_pxl(oled, 0, 0)` on a blank buffer sets bit 0 of `disp_buff[0]`; `ssd1306_display` then overwrites it with 0x40, so the pixel never reaches the panel. Every other pixel is shifted one GDDRAM byte back | `cell_addr = 1 + x + row * SSD1306_HORIZONTAL_MAX`, so that pixel (x, y) sits in data byte x of page y / 8 | high, not executed | Framebuffer.AsWrittenPixelLost | Framebuffer.DrawnPixelReachesPanel |
| ssd1306-cmode.c:141-144 | a non-printable byte zeroes the rest of its line and `break`s without `position++`, so the next line meets the same byte again. The comment above it says "Do not copy it. Skip one line." Because `position` is a pointer and never null, the end-of-string branch is never taken either | `ssd1306_cut_str(cmode, "Hi\nBob")` on a 10x2 grid leaves "Hi" on line 0, blanks line 1 and returns 2 | consume the byte and go on with the next line: "Hi" on line 0, "Bob" on line 1, and a count of 5 | medium, not executed | CharMode.CutNewline | CharMode.CutSkippingNewline |
