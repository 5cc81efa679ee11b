# q6a-kvm: a verified model

A Dafny model of the parts of q6a-kvm that carry real algorithms or state: the QR
encoder behind the setup page, the HDMI bridge driver, the HID bridge with its
macro language, the capture watchdog, the credential store and the WebSocket
framing. Classes and methods follow the source where it works in place; each
method is proved against a specification function, and the lemmas prove what that
specification is for. `dafny verify dfyconfig.toml` checks everything.

| files | component |
|---|---|
| `Gf256`, `Polynomial`, `ReedSolomon` | GF(256) tables, polynomial arithmetic, error correction |
| `BitBuffer`, `QrData`, `Interleave`, `Matrix`, `Symbol` | segments, padding, blocks, zigzag placement, and the whole way there and back |
| `BitStream`, `Lzw`, `Base64` | the GIF code packer and compressor, the base64 writer and reader |
| `I2c`, `Edid`, `Lanes` | the driver's register bus, its EDID and hotplug handlers, its rate arithmetic |
| `Keymap`, `Hid`, `HidRuns`, `Macro` | key tables, the HID object, its interleavings with goroutines, macro scripts |
| `Watchdog` | the watchdog's main loop over runs of polls |
| `Bytes`, `Pbkdf2`, `Totp`, `Credentials` | key derivation, one-time codes, the account with crashes and restarts |
| `WebSocket` | frames, the message reader and the frame writer |

## Where the code and its promise differ

Each of these is proved: where a promise fails, the exact condition under which it
holds and an input for which it does not.

- Lane count: for RGB the round-up can wrap 32 bits, and the count is then 0
  (`Lanes.RgbLanes`, `Lanes.RgbWraps`).
- EDID read-back: the clip to the blocks written compares a 32-bit sum, so it holds
  exactly when start plus count does not wrap (`Edid.ClippedExactly`,
  `Edid.UnclippedExample`); the V4L2 core caps requests far below that.
- Watchdog: the eight seconds between restarts are counted on a whole-second clock.
  What is kept is 8000 ms less the sub-second part of the earlier return, a bound
  that is attained; eight real seconds are guaranteed exactly after a return on a
  whole second (`Watchdog.KicksApart`, `Watchdog.KicksCanBeClose`,
  `Watchdog.EightSecondsExactly`).
- Replay guard: a step whose save failed can be accepted again after a restart, as
  the comment in the source concedes; exactly the steps without a completed rename
  since are affected (`Credentials.ReplayExactlyUnsaved`).
- Keyboard: a chord or text that finishes while the user holds a key leaves the
  device released until the next key event (`HidRuns.HeldKeyReleasedByChord`).

## Model

| member | source | states |
|---|---|---|
| `Gf256.OrderIs255` | controlplane/web/qrcode.js:8 | no power of the generator below 255 is 1, so the exponent table has no shorter cycle |
| `Gf256.LogExists` | controlplane/web/qrcode.js:8 | every nonzero byte is a power of the generator: the log table has no hole |
| `Gf256.Log` | controlplane/web/qrcode.js:8 | the logarithm of a nonzero byte is below 255 and its power gives the byte back |
| `Gf256.MulDistributes` | controlplane/web/qrcode.js:8 | multiplication through the tables distributes over the XOR that adds coefficients, on both sides |
| `Gf256.MulAssociates` | controlplane/web/qrcode.js:8 | multiplication through logarithms is associative, zero included |
| `Gf256.PowRecurrence` | controlplane/web/qrcode.js:8 | the XOR of four earlier entries that fills the table is multiplication by the generator modulo the field polynomial |
| `Gf256.SmallPow` | controlplane/web/qrcode.js:8 | the first eight powers are 1, 2, 4 to 128, which with the recurrence fixes the table |
| `Gf256.Tables.FillExp` | controlplane/web/qrcode.js:8 | the in-place fill leaves all 256 entries equal to the powers of the generator |
| `Gf256.Tables.FillLog` | controlplane/web/qrcode.js:8 | the in-place fill leaves at every nonzero byte its logarithm |
| `Gf256.Tables.constructor` | controlplane/web/qrcode.js:8 | both tables are filled and inverse to each other |
| `Gf256.Tables.Gexp` | controlplane/web/qrcode.js:8 | for any integer, negative or large, the look-up is the power reduced modulo the order |
| `Gf256.Tables.Glog` | controlplane/web/qrcode.js:8 | a logarithm for every nonzero byte, the exception exactly for zero |
| `Polynomial.EvalProduct` | controlplane/web/qrcode.js:8 | evaluating a product of coefficient strings is the product of the evaluations |
| `Polynomial.CancelsLead` | controlplane/web/qrcode.js:8 | one division step cancels the leading coefficient, so the length strictly falls and division ends |
| `Polynomial.RemAtRoot` | controlplane/web/qrcode.js:8 | at every root of the divisor the remainder has the value of the dividend |
| `ReedSolomon.GeneratorRoot` | controlplane/web/qrcode.js:8 | the generator of degree c vanishes at the first c powers of the field generator |
| `ReedSolomon.CoefficientRecurrence` | controlplane/web/qrcode.js:8 | neighbouring generator coefficients are tied by (1 + a^k) g[k] = (a^(k-1) + a^c) g[k-1] |
| `ReedSolomon.GeneratorNonzero` | controlplane/web/qrcode.js:8 | up to degree 254 no generator coefficient is zero, so the logarithm of one never throws |
| `ReedSolomon.CodewordRoots` | controlplane/web/qrcode.js:8 | for every data block and count c, data followed by its c bytes is a polynomial that vanishes at a^0 .. a^(c-1) (section 7.5.2 of ISO/IEC 18004:2015) |
| `ReedSolomon.ManyRootsIsZero` | controlplane/web/qrcode.js:8 | a polynomial with no more coefficients than distinct roots is zero |
| `ReedSolomon.ErrorBytesUnique` | controlplane/web/qrcode.js:8 | conversely the error-correction bytes are the only c bytes with those roots |
| `ReedSolomon.AddRow` | controlplane/web/qrcode.js:8 | the inner multiplication loop adds one scaled row, and throws exactly when it meets a zero coefficient |
| `ReedSolomon.Multiply` | controlplane/web/qrcode.js:8 | the polynomial product, or the exception exactly when a coefficient of either factor is zero |
| `ReedSolomon.ErrorCorrectPolynomial` | controlplane/web/qrcode.js:8 | the generator product comes out for every degree below 256 without an exception |
| `ReedSolomon.Mod` | controlplane/web/qrcode.js:8 | the recursive division ends with the remainder, or throws exactly when the divisor has a zero coefficient and is used |
| `ReedSolomon.BlockErrorBytes` | controlplane/web/qrcode.js:8 | the right-aligned remainder of one block: exactly the bytes CodewordRoots and ErrorBytesUnique speak of, with no exception below 255 |
| `BitBuffer.BitBuffer.PutBit` | controlplane/web/qrcode.js:8 | one bit is appended and no earlier bit changes |
| `BitBuffer.BitBuffer.Put` | controlplane/web/qrcode.js:8 | a number is appended as its bits, most significant first |
| `BitBuffer.BytesOfBits` | controlplane/web/qrcode.js:8 | at a byte boundary the buffer's bytes hold exactly the bits put in |
| `BitBuffer.BitValues` | controlplane/web/qrcode.js:8 | bit k of a byte is the one of value 128 shifted right by k |
| `QrData.PaddedFillsCapacity` | controlplane/web/qrcode.js:8 | whenever the data fits, padding ends at exactly the capacity and leaves the data as an unchanged prefix (section 7.4.10 of ISO/IEC 18004:2015) |
| `QrData.SegmentsRecovered` | controlplane/web/qrcode.js:8 | a reader that stops at a zero mode or fewer than four bits gets back exactly the segments, whatever follows the terminator |
| `QrData.SegmentLayout` | controlplane/web/qrcode.js:8 | bit by bit: byte mode is 0100 with the count in bits 4 to 11 in versions 1 to 9 and 4 to 19 above, and likewise numeric (10, 12, 14 bits), alphanumeric (9, 11, 13) and Kanji (8, 10, 12), the payload right behind; a count too wide is cut to its low bits (table 3 of ISO/IEC 18004:2015) |
| `QrData.FieldWidths` | controlplane/web/qrcode.js:8 | the writer's chain of version tests gives the reader's table of widths, in every version and mode |
| `QrData.DataLength` | controlplane/web/qrcode.js:8 | the bits of a segment list are as many as the reader's table says, and unwritable exactly with a mode the table lacks |
| `QrData.TerminatorBits` | controlplane/web/qrcode.js:8 | at most four zero bits if they fit, then fewer than eight more up to a whole byte, never a one bit |
| `QrData.PadByteAt` | controlplane/web/qrcode.js:8 | pad byte k is 11101100 for even k and 00010001 for odd k |
| `QrData.PaddedRoundTrip` | controlplane/web/qrcode.js:8 | parsing the padded codewords with a table of field widths of its own gives back the segments, in every version and mode |
| `QrData.FillBuffer` | controlplane/web/qrcode.js:8 | for any segments: the exception exactly for a mode other than 1, 2, 4 and 8, the overflow error exactly when the bits by the reader's table exceed the capacity, otherwise the padded bits |
| `QrData.Terminate` | controlplane/web/qrcode.js:8 | the terminator if there is room for it, then zeros up to a byte boundary and no further |
| `QrData.Pad` | controlplane/web/qrcode.js:8 | alternating pad bytes up to the capacity |
| `QrData.BytesRecovered` | controlplane/web/qrcode.js:8 | the bits of a byte segment hold its bytes |
| `Interleave.InterleaveRoundTrip` | controlplane/web/qrcode.js:8 | for any block layout, de-interleaving by the block lengths alone recovers every block |
| `Interleave.InterleavedLength` | controlplane/web/qrcode.js:8 | the interleaved string is as long as all its blocks together |
| `Interleave.EqualBlocks` | controlplane/web/qrcode.js:8 | blocks of one length: entry g of block u is at g times the number of blocks, plus u |
| `Interleave.LongerBlockLast` | controlplane/web/qrcode.js:8 | a block longer than the others goes on alone at the end |
| `Interleave.BuildBlocks` | controlplane/web/qrcode.js:8 | consecutive slices of the buffer, the error-correction bytes of each, and the true maxima of both kinds |
| `Interleave.WriteColumns` | controlplane/web/qrcode.js:8 | the nested index loops write the rows column by column after what was there |
| `Interleave.CreateBytes` | controlplane/web/qrcode.js:8 | total length is the sum of the total counts; data blocks interleaved, then error-correction blocks interleaved (section 7.6 of ISO/IEC 18004:2015) |
| `Interleave.BlocksTogether` | controlplane/web/qrcode.js:8 | the data blocks joined in order are the buffer |
| `Symbol.CreateData` | controlplane/web/qrcode.js:8 | for any segments: codewords, or the exception of an unknown mode, or the overflow error exactly when the segment bits by the reader's table exceed the data capacity |
| `Symbol.CodewordsRoundTrip` | controlplane/web/qrcode.js:8 | for segments whose counts fit their fields, de-interleaving and parsing the finished codewords gives the segments back |
| `Symbol.SymbolRoundTrip` | controlplane/web/qrcode.js:8 | a placed symbol with room for all codewords reads back, through unmasking, de-interleaving and parsing, as the segments put in |
| `Matrix.PathCells` | controlplane/web/qrcode.js:8 | the zigzag visits pairwise distinct cells, and exactly those of the column pairs behind it |
| `Matrix.PathSteps` | controlplane/web/qrcode.js:8 | the zigzag step by step: from the lower right corner, right module then left, row by row, turning at the edge and jumping column 6 |
| `Matrix.SlotsCoverMatrix` | controlplane/web/qrcode.js:8 | every odd size: the data slots are exactly the empty modules outside column 6, each once (section 7.7.3 of ISO/IEC 18004:2015) |
| `Matrix.PlaceModule` | controlplane/web/qrcode.js:8 | an empty module takes the next data bit under the mask; a preset module is left alone and uses up no bit |
| `Matrix.FillPair` | controlplane/web/qrcode.js:8 | one run up or down a column pair, right module before left, turning at the edge |
| `Matrix.MapData` | controlplane/web/qrcode.js:8 | for any presets and any mask predicate, exactly the slots are written: module k with bit k % 8 of byte k / 8, most significant first and 0 past the data, inverted where the mask holds; no preset module changes |
| `Matrix.ScanReadsData` | controlplane/web/qrcode.js:8 | unmasking along the path reads the codeword bits in order, followed by zero bits |
| `BitStream.BitWriter.Write` | controlplane/web/qrcode.js:8 | appends the low bits of a number, lowest first; throws exactly when the number does not fit its width |
| `BitStream.BitWriter.FillByte` | controlplane/web/qrcode.js:8 | completing a byte loses and reorders no bit |
| `BitStream.BitWriter.Flush` | controlplane/web/qrcode.js:8 | the bytes hold all bits written, then zeros up to a byte boundary |
| `BitStream.LowestBitFirst` | controlplane/web/qrcode.js:8 | bytes are read from the bit of value 1 up to the bit of value 128 |
| `Lzw.EmittedCodesFit` | controlplane/web/qrcode.js:8 | every code emitted fits the width in force, so the length exception never occurs |
| `Lzw.DecodeEmitted` | controlplane/web/qrcode.js:8 | a table-building decoder stays in step with the compressor over the whole stream, through the code that is not yet in its table and the frozen full table |
| `Lzw.PixelsRecovered` | controlplane/web/qrcode.js:8 | decoding that stops at the pixel count recovers exactly the pixels (Appendix F of the GIF89a specification) |
| `Lzw.PixelsRecoveredToEnd` | controlplane/web/qrcode.js:8 | decoding up to the end code recovers the pixels unless exactly eleven codes, a final table of sixteen entries, came before it |
| `Lzw.Account` | controlplane/web/qrcode.js:8 | bits written and pixels covered follow from table size and code width alone: n(size - 1) - 2^n - 4 bits, and at most a triangular number of pixels |
| `Lzw.CutExactly` | controlplane/web/qrcode.js:8 | no padding is left behind a just outgrown code exactly with sixteen entries, which takes at most 66 pixels |
| `Lzw.LargeImagesReadToEnd` | controlplane/web/qrcode.js:8 | every image of more than 66 pixels is recovered by a decoder that waits for the end code |
| `Lzw.SymbolImagesReadToEnd` | controlplane/web/qrcode.js:8 | so is every image of createDataURL: 21 or more modules a side, any cell size, any margin |
| `Lzw.NoPixelsReadAsOne` | controlplane/web/qrcode.js:8 | given no pixels at all, which no QR image does, the compressor writes one pixel of colour 0 |
| `Lzw.OnePixelCodes` | controlplane/web/qrcode.js:8 | a single pixel is the three codes clear, pixel, end, of three bits each |
| `Lzw.ThreePixelCodes` | controlplane/web/qrcode.js:8 | three pixels code by code: the pair just entered is code 6 |
| `Lzw.EndCutExample` | controlplane/web/qrcode.js:8 | the bound of 66 pixels is sharp: that many of colour 0, fewer than any QR image has, do take eleven codes |
| `Lzw.Dictionary.Add` | controlplane/web/qrcode.js:8 | a string enters the table under the next code; a second entry of the same string is an error |
| `Lzw.WriteCode` | controlplane/web/qrcode.js:8 | one code written at the current width, and the longer string entered unless the table is full |
| `Lzw.TakePixel` | controlplane/web/qrcode.js:8 | one turn of the compression loop keeps written codes plus codes still due the same |
| `Lzw.Compress` | controlplane/web/qrcode.js:8 | the whole loop ends without exception in bytes that hold the code stream |
| `Base64.Writer.WriteByte` | controlplane/web/qrcode.js:8 | although the 32-bit accumulator is never masked, the characters so far are the sextets of the data so far |
| `Base64.Writer.Flush` | controlplane/web/qrcode.js:8 | the text is the encoding of section 4 of RFC 4648, padding included |
| `Base64.Reader.ReadByte` | controlplane/web/qrcode.js:8 | a byte, the end of the data or the exception, from position and accumulator; spaces skipped, '=' ends |
| `Base64.ReadTail` | controlplane/web/qrcode.js:8 | after any number of bytes read, the reader gives the remaining bytes and then the end |
| `Base64.RoundTrip` | controlplane/web/qrcode.js:8 | reading what was written gives the same bytes, then the end, without an exception |
| `Base64.AlphabetIs` | controlplane/web/qrcode.js:8 | the 64 characters are A to Z, a to z, 0 to 9, + and / in this order (table 1 of RFC 4648) |
| `Base64.SextetsAreBytes` | controlplane/web/qrcode.js:8 | every four characters carry three bytes, most significant bits first |
| `Base64.EncodedShape` | controlplane/web/qrcode.js:8 | the text is four characters for every three bytes begun, with padding signs exactly at the end |
| `I2c.MovedExactly` | kernel/tc358743/tc358743.c:142-209 | a failure at burst k leaves exactly the first 8k bytes moved, no failure all of them |
| `I2c.Bus.Write` | kernel/tc358743/tc358743.c:176-209 | bursts of at most eight bytes leave the memory of one long transfer of as many bytes as moved |
| `I2c.Bus.Read` | kernel/tc358743/tc358743.c:142-174 | the buffer gets the prefix that moved and keeps its tail, also past the end of the 16-bit address space; the error is reported exactly when something is missing |
| `I2c.FilledInside` | kernel/tc358743/tc358743.c:142-174 | inside the address space that prefix is one slice of the memory |
| `I2c.AddressBytes` | kernel/tc358743/tc358743.c:150 | the two address bytes name the register modulo 2^16 |
| `Edid.HotplugSafety` | kernel/tc358743/tc358743.c:392-457 | in every run of handler steps, hotplug high or about to rise means a nonzero block count and EDID RAM holding the last complete image, with its length |
| `Edid.HotplugFollowsPower` | kernel/tc358743/tc358743.c:1294-1318 | in every run in which the last change of the 5 V line has been served, hotplug is high or about to rise if and only if 5 V is present and an image has been written, and high if the delayed work came last |
| `Edid.Driver.SetEdid` | kernel/tc358743/tc358743.c:1876-1928 | refines the state machine's step, checks in order; a refused call changes nothing, a call with too many blocks reports the maximum, an accepted one leaves the image from register 8C00 hexadecimal on, its length, hotplug low, and work pending exactly with 5 V and blocks |
| `Edid.Driver.WriteBlocks` | kernel/tc358743/tc358743.c:1917-1918 | the block loop leaves the blocks from register 8C00 hexadecimal on and keeps the rest of the RAM, with hotplug low and no work pending at every write |
| `Edid.Driver.WriteEdidLength` | kernel/tc358743/tc358743.c:1909-1910 | low and high byte of the length in registers 85CA and 85CB hexadecimal, and nothing else changes |
| `Edid.Driver.Write` | kernel/tc358743/tc358743.c:176-209 | every register write is logged with the hotplug and pending bits of its moment; EDID writes only when both are off |
| `Edid.Driver.SetHpd` | kernel/tc358743/tc358743.c:392-402 | only the hotplug bit of its register changes |
| `Edid.Driver.DelayedWork` | kernel/tc358743/tc358743.c:392-402 | the delayed work raises hotplug once |
| `Edid.Driver.Disable` | kernel/tc358743/tc358743.c:426-437 | pending work is cancelled and hotplug is low afterwards |
| `Edid.Driver.Enable` | kernel/tc358743/tc358743.c:439-457 | work is scheduled exactly when there are blocks |
| `Edid.Driver.SysInterrupt` | kernel/tc358743/tc358743.c:1294-1318 | on a change of the 5 V line hotplug is prepared or withdrawn according to its level |
| `Edid.Driver.GetEdid` | kernel/tc358743/tc358743.c:1845-1874 | for any 32-bit start and count: refusals copy nothing, otherwise the stated number of bytes from the EDID RAM on; without wrap-around these are whole blocks of the RAM and the rest of the buffer is untouched |
| `Edid.ClippedExactly` | kernel/tc358743/tc358743.c:1866-1868 | the request is clipped to the blocks written if and only if start plus count does not wrap 32 bits |
| `Edid.GetAnswers` | kernel/tc358743/tc358743.c:1845-1874 | start 0 and count 0 ask for the number of blocks; no data without blocks; every other refusal and count |
| `Edid.UnclippedExample` | kernel/tc358743/tc358743.c:1866-1868 | with two blocks written, a request whose sum wraps keeps its count |
| `Edid.GetReturnsLastImage` | kernel/tc358743/tc358743.c:1845-1928 | in every run the blocks copied by a request that does not wrap are those of the last accepted image, clipped to its end |
| `Lanes.BitRateExact` | kernel/tc358743/tc358743.c:71-82 | within the timing caps the frame area is not zero and the 32-bit bit rate never wraps, in both formats |
| `Lanes.FpsIsNearest` | kernel/tc358743/tc358743.c:327-333 | the frame rate is the one whole number within half a frame of the pixel clock, a tie rounded up |
| `Lanes.NoFrameNoRate` | kernel/tc358743/tc358743.c:327-333 | without a frame area the rate is 0 |
| `Lanes.PixelRate` | kernel/tc358743/tc358743.c:327-333 | rounding the frame rate to nearest exceeds the pixel clock by at most half a frame |
| `Lanes.LanesNeededExact` | kernel/tc358743/tc358743.c:787-799 | the rounded-up quotient is the least sufficient lane count unless the rounding sum wraps, and is then 0 |
| `Lanes.SetupExactly` | kernel/tc358743/tc358743.c:2078-2104 | exactly the clocks 26, 27 and 42 MHz and line rates of 62.5 Mbit/s to 1 Gbit/s are accepted, with dividers 4, 4 and 7 |
| `Lanes.PllRate` | kernel/tc358743/tc358743.c:2078-2104 | the PLL rate is the requested rate less its remainder modulo the reference clock, from an input of 6 to 40 MHz |
| `Lanes.UyvyLanes` | kernel/tc358743/tc358743.c:787-799 | for UYVY at every accepted line rate: the least lane count whose total rate suffices |
| `Lanes.RgbLanes` | kernel/tc358743/tc358743.c:787-799 | for RGB the count suffices if and only if bit rate plus lane rate is at most 2^32; otherwise it is 0 |
| `Lanes.RgbWraps` | kernel/tc358743/tc358743.c:787-799 | 1920x1200 at 60 Hz in RGB over 999 Mbit/s lanes asks for no lane |
| `Keymap.LayoutInverts` | controlplane/hid.go:337-364 | every typable character comes back from its key on a US layout, CR as LF |
| `Keymap.UsageNamesKey` | controlplane/hid.go:307-329 | no two keys share a usage, and none has usage 0 |
| `Keymap.CapsAreTyped` | controlplane/hid.go:307-329 | every printing key, pressed interactively, gives a US host the two characters printed on it, with and without shift |
| `Keymap.UsageRuns` | controlplane/hid.go:307-329 | the twelve function keys, the ten editing and cursor keys and the ten keypad digits have consecutive usages from 3A, 49 and 59 hexadecimal on |
| `Keymap.SingleKeys` | controlplane/hid.go:307-329 | print screen, scroll lock, pause, the keypad signs and the last three keys have the usages of section 10 of the HID usage tables |
| `Keymap.EditingKeys` | controlplane/hid.go:307-329 | Enter, Escape, Backspace, Tab, Space and Caps Lock have the usages of section 10 of the HID usage tables |
| `Keymap.ModifierOrder` | controlplane/hid.go:302-305 | left control, shift, alt, meta and the right four are bits 0 to 7 in this order |
| `Hid.HeldKeyRefinement` | controlplane/hid.go:112-171 | over every event sequence the tracked keys are distinct, at most six, among those physically held, and exactly those in press order while no more than six were down together since the last reset; the modifier mask is exact |
| `Hid.ModifierBits` | controlplane/hid.go:302-305 | different modifier keys have different single bits |
| `Hid.HID.WriteKbd` | controlplane/hid.go:164-171 | the report is the modifier byte and the tracked keys, unused slots 0 |
| `Hid.HID.Reset` | controlplane/hid.go:112-123 | no key tracked, an all-zero report written, the relative mouse released if there is one |
| `Hid.HID.Key` | controlplane/hid.go:127-162 | a modifier sets or clears its bit, another known key is pressed or released, and one report of the tracked state is written; an unknown code does nothing |
| `Hid.HID.Press` | controlplane/hid.go:143-152 | a usage is added at most once and never as a seventh |
| `Hid.HID.Release` | controlplane/hid.go:153-160 | only the first occurrence of the usage is removed, order kept |
| `Hid.HID.Chord` | controlplane/hid.go:267-280 | the press report and the release of ChordPress; tracked state untouched |
| `Hid.ChordPress` | controlplane/hid.go:267-280 | for every modifier, its bit is in the press report if and only if the code occurs in the chord; its six slots are the usages of the first six other known codes in order, then zeros; the second report is all zeros |
| `Hid.CharPress` | controlplane/hid.go:283-298 | a character is one report of its key, with left shift exactly for a shifted character, and an all-zero report |
| `Hid.HID.Type` | controlplane/hid.go:283-298 | a press and a release for every character on the layout; tracked state untouched |
| `Hid.HID.WriteRaw` | controlplane/hid.go:253-264 | up to six usages, the rest dropped |
| `Hid.HID.MouseRelMove` | controlplane/hid.go:187-208 | the loop ends and writes the split reports, nothing without a relative mouse |
| `Hid.MovementConserved` | controlplane/hid.go:187-208 | the reports' deltas sum to exactly the movement, each within -127..127; the wheel rides on the first only, buttons are constant, and the count is max(1, ceil(abs dx/127), ceil(abs dy/127)) |
| `Hid.MovementIsShortest` | controlplane/hid.go:187-208 | no shorter list of in-range reports makes the same movement |
| `Hid.TypeRoundTrip` | controlplane/hid.go:283-298 | edge-decoding the reports of a text on a US layout gives the mapped characters in order, repeated characters included |
| `HidRuns.PressOwesRelease` | controlplane/hid.go:253-298 | in every interleaving a transient press is the last report only while its goroutine still owes the release |
| `HidRuns.ScriptPairs` | controlplane/macro.go:68-79 | every chord, text and macro writes presses each followed by a release |
| `HidRuns.GoroutinesKeepKeys` | controlplane/hid.go:253-298 | goroutines never disturb the tracked keys: they follow from the interactive events alone |
| `HidRuns.NoStuckKeys` | controlplane/hid.go:112-171 | once all goroutines have finished the last report is the tracked state if the user wrote last and all zeros otherwise, and all zeros when the last effective event was a reset |
| `HidRuns.LastReportIsHeld` | controlplane/hid.go:112-171 | with the user writing last and no more than six keys down together since the last reset, that report is the physically held keys in press order and the exact modifiers |
| `HidRuns.HeldKeyReleasedByChord` | controlplane/hid.go:267-280 | a chord that finishes last leaves the device released while the user still holds a key |
| `Macro.ErrorNamesFirstBadLine` | controlplane/macro.go:24-66 | a script fails with line n if and only if n is its first bad line, with that line's reason |
| `Macro.NoErrorNoBadLine` | controlplane/macro.go:24-66 | a script has no line error if and only if no line is bad |
| `Macro.BlankLinesChangeNothing` | controlplane/macro.go:27-30 | inserting a blank or comment line changes no step and moves later error lines down by one |
| `Macro.PassedIs` | controlplane/macro.go:27-30 | a line is passed over if and only if it is blank or a comment after trimming |
| `Macro.NoColonLine` | controlplane/macro.go:31-34 | any other line without a colon is the error of a missing colon |
| `Macro.LineMeans` | controlplane/macro.go:35-60 | what a line of each of the four kinds means, with its errors, and the error of any other kind |
| `Macro.TrimIs` | controlplane/macro.go:28 | trimming cuts all white space at both ends and nothing else |
| `Macro.CutIs` | controlplane/macro.go:31 | a line is cut at its first colon |
| `Macro.SplitIs` | controlplane/macro.go:26 | the pieces hold no separator and, joined by it, are the text |
| `Macro.AtoiIs` | controlplane/macro.go:52 | a number is an optional sign and at least one digit, and negative only behind a minus |
| `Macro.CodesAre` | controlplane/macro.go:42-47 | the codes of a chord are its pieces in order, trimmed, without the blank ones |
| `Macro.EmptyMacro` | controlplane/macro.go:62-64 | the error of an empty macro means that every line is passed over, and conversely |
| `Macro.MacroRoundTrip` | controlplane/macro.go:24-66 | parsing the printed form of any nonempty list of canonical steps gives the list back |
| `Macro.ParseCodes` | controlplane/macro.go:42-47 | the trimmed nonempty pieces of a chord, in order |
| `Macro.ParseMacro` | controlplane/macro.go:24-66 | the loop with its early returns computes the parse of the whole script |
| `Macro.RunMacro` | controlplane/macro.go:68-79 | the reports of the steps, one after the other |
| `Macro.MacroReportsAre` | controlplane/macro.go:68-79 | a step in the middle of a macro writes its own reports between those before and after it: texts typed, chords pressed, nothing for delays |
| `Watchdog.Watchdog.Poll` | packaging/q6a-kvm-watchdog.sh:59-100 | one turn of the main loop makes the specified transition and reports whether it restarted, logged or did neither |
| `Watchdog.KicksApart` | packaging/q6a-kvm-watchdog.sh:62-99 | in every run a restart starts at least 8000 ms after an earlier one returned, less the milliseconds into the second at which that one returned |
| `Watchdog.KicksCanBeClose` | packaging/q6a-kvm-watchdog.sh:62-99 | that bound is attained for each of the thousand sub-second parts, down to 7001 ms, by a run that keeps the script's pauses |
| `Watchdog.EightSecondsExactly` | packaging/q6a-kvm-watchdog.sh:62-99 | eight real seconds follow a restart in all runs if and only if it returns on a whole second |
| `Watchdog.RestartWithinSix` | packaging/q6a-kvm-watchdog.sh:78-99 | from any state, if six polls in a row see a carryable signal with a wrong mode or no frames, one of them restarts |
| `Watchdog.FivePollsCanPass` | packaging/q6a-kvm-watchdog.sh:78-99 | five such polls can pass without a restart |
| `Watchdog.LoggedOncePerStretch` | packaging/q6a-kvm-watchdog.sh:68-76 | a poll logs exactly the mode and pixel clock above 75 MHz that it sees and the poll before it did not |
| `Watchdog.StallCounts` | packaging/q6a-kvm-watchdog.sh:91-99 | the stall counter is backed by that many consecutive stalled polls |
| `Watchdog.RestartExactly` | packaging/q6a-kvm-watchdog.sh:59-99 | in every run a poll restarts the streamer if and only if it sees a signal without a pixel clock above 75 MHz, the clock is eight seconds past the last return or the start, and the poll before saw no signal, or the mode differs from the configured one, or there are no frames for at least the third stalled poll in a row |
| `Totp.Power` | controlplane/totp.go:57-63 | repeated 32-bit multiplication gives the power of ten modulo 2^32 |
| `Totp.TruncateIsNumber` | controlplane/totp.go:51-53 | the shifts and masks are the big-endian number of four bytes modulo 2^31 (section 5.3 of RFC 4226) |
| `Totp.CodeIsTruncatedMac` | controlplane/totp.go:42-55 | six digits that read back as the truncated MAC modulo a million |
| `Totp.SixDigits` | controlplane/totp.go:54 | the six decimal digits, the hundred thousands first, leading zeros kept |
| `Totp.ComputeCode` | controlplane/totp.go:42-55 | the code, or a failure exactly for a secret that does not decode or is empty |
| `Totp.NearIsWindow` | controlplane/totp.go:69-89 | in seconds: the steps tried are those whose thirty seconds, or the thirty before or after, hold the clock |
| `Totp.AcceptIsLeast` | controlplane/totp.go:69-89 | the accepted step is the least that is not negative, near the clock in seconds, later than the last one and has this code; none if there is no such step |
| `Totp.Verify` | controlplane/totp.go:69-89 | the loop with its skips and early exits returns that least step |
| `Totp.FreshCodeAccepted` | controlplane/totp.go:69-89 | the code of any fresh step within one step of now is accepted |
| `Credentials.OldOrNew` | controlplane/auth.go:161-183 | stopped after any number of its five calls, a save leaves the old file or the whole new one, the new one only after the rename |
| `Credentials.AdmitExactly` | controlplane/auth.go:130-154 | a login is admitted if and only if the user is the stored one, the derived key of the given password is the stored hash and, with a secret set, some step later than the last and near the clock has the trimmed code; that step alone is burned |
| `Credentials.RegisterExactly` | controlplane/auth.go:89-125 | each refusal exactly under its condition and in order: configured already, no user, fewer than eight bytes of password, no step that confirms the code; otherwise every field of the account, with 600000 rounds and 32 bytes of key |
| `Credentials.Auth.SaveLocked` | controlplane/auth.go:161-183 | with one call failing the file is the old one and an error is returned, otherwise it holds the account |
| `Credentials.Auth.constructor` | controlplane/auth.go:52-71 | a usable file is taken up: no account for an absent file, the whole account otherwise |
| `Credentials.Auth.NewAuth` | controlplane/auth.go:52-71 | an unreadable or corrupt file, or one without a user name, is refused with an error; an absent one is a first run; any other is taken up |
| `Credentials.Auth.Setup` | controlplane/auth.go:89-125 | refusals in order and without effect, each exactly under its condition; a failed save leaves no account; otherwise account and file agree, the confirming code burned |
| `Credentials.Auth.Login` | controlplane/auth.go:130-154 | admitted if and only if there is an account, the user and the derived key match and, with a secret, some fresh step near the clock has the code; the accepted step is burned in memory, and in the file if the save succeeds |
| `Credentials.SetupThenLogin` | controlplane/auth.go:89-154 | whoever sets the account up can log in with the same password and, with two factors, the code of any fresh step |
| `Credentials.InvAlways` | controlplane/auth.go:89-183 | in every run with crashes, memory holds the file's account with a last step at least as late |
| `Credentials.AcceptedInWindow` | controlplane/totp.go:69-89 | in every run each accepted step is not negative and within one step of the clock |
| `Credentials.NoReplay` | controlplane/auth.go:89-183 | a later accepted step exceeds every earlier one that is still guarded: not crashed since, or some rename completed before the first crash; the clock may run backwards (section 5.2 of RFC 6238) |
| `Credentials.SavedStepsIncrease` | controlplane/auth.go:89-183 | steps whose save succeeded are exceeded by all later accepted steps, across any crashes and restarts |
| `Credentials.RestartTakesLastRename` | controlplane/auth.go:52-71 | a restart takes up exactly the account of the last completed rename |
| `Credentials.CrashKeepsExactlyRenamed` | controlplane/auth.go:150-183 | after a crash the file guards a step accepted before it if and only if some rename since its acceptance completed |
| `Credentials.UnsavedStepComesBack` | controlplane/auth.go:150-151 | in every run: a login whose step no rename has recorded is, after a crash and a restart, accepted again, with a step no later |
| `Credentials.ReplayExactlyUnsaved` | controlplane/auth.go:130-183 | the same login is accepted again with a step no later if and only if no rename completed between its acceptance and the crash |
| `Pbkdf2.Block` | controlplane/auth.go:267-281 | the rounds that reuse one buffer and XOR into another compute U_1 ^ ... ^ U_c |
| `Pbkdf2.Rounds` | controlplane/auth.go:267-277 | the first round hashes the salt and four index bytes, highest first; every later one hashes the one before |
| `Pbkdf2.BlockBit` | controlplane/auth.go:267-281 | every bit of a block is the parity of that bit over U_1 to U_c |
| `Pbkdf2.KeyBit` | controlplane/auth.go:261-285 | every bit of a derived key is that parity over the rounds of its block, for any count and length |
| `Bytes.XorBit` | controlplane/auth.go:278-280 | a bit of the exclusive or is set exactly when the bits of the two bytes differ |
| `Bytes.BigEndianLiterals` | controlplane/auth.go:269 | numbers are written highest byte first |
| `Pbkdf2.XorInto` | controlplane/auth.go:278-280 | byte-wise XOR in place |
| `Pbkdf2.Derive` | controlplane/auth.go:261-285 | for every password, salt, count and length the loops give T_1, T_2, ... joined and cut to length (section 5.2 of RFC 8018) |
| `Pbkdf2.KeyByte` | controlplane/auth.go:261-285 | byte k of a key is byte k mod 32 of block k / 32 + 1, whatever the key length |
| `Pbkdf2.ShorterKeyIsPrefix` | controlplane/auth.go:261-285 | shorter keys are prefixes of longer ones |
| `Pbkdf2.IndexBytes` | controlplane/auth.go:269 | below 2^32 blocks have different index bytes, beyond that they repeat |
| `WebSocket.MaskedTwice` | controlplane/ws.go:94-98 | masking twice with the same key gives the payload back |
| `WebSocket.MaskedBit` | controlplane/ws.go:94-98 | a bit of an unmasked byte differs from the wire exactly where the mask byte of its position mod 4 has a bit; without a mask nothing changes |
| `WebSocket.WireFormat` | controlplane/ws.go:63-98 | the bytes of a frame written out in each length class, mask bit and mask included |
| `WebSocket.SentBytes` | controlplane/ws.go:111-132 | the bytes of a sent frame: final bit and opcode, no mask, the shortest length, the payload as it is |
| `WebSocket.Opcodes` | controlplane/ws.go:99-107 | 1 and 2 are returned, 8 closes, 9 is answered by opcode 10 with its payload, every other opcode is passed over |
| `WebSocket.ReadIsParse` | controlplane/ws.go:63-98 | a stream yields a frame and a rest if and only if it is that frame serialized, followed by the rest, for every length encoding and mask (sections 5.2 and 5.3 of RFC 6455) |
| `WebSocket.CutFrameIsShort` | controlplane/ws.go:63-93 | a frame cut off anywhere is a read error, never another frame |
| `WebSocket.WrittenIsRead` | controlplane/ws.go:111-132 | what the writer sends is read back with the same opcode and payload in every length class |
| `WebSocket.FirstDataFrame` | controlplane/ws.go:61-109 | behind any ping, pong and other frames the first data frame is returned unmasked and consumed exactly, and the pings before it are answered in order |
| `WebSocket.MessageWasSent` | controlplane/ws.go:61-109 | conversely a message received was the first data frame of the stream, everything before it passed over whole and every ping of it answered |
| `WebSocket.PassedOver` | controlplane/ws.go:61-109 | every outcome: message, close, bad length and read error each come from the first frame that is not passed over |
| `WebSocket.Unmask` | controlplane/ws.go:94-98 | the payload array is unmasked in place |
| `WebSocket.Conn.ReadHeader` | controlplane/ws.go:63-89 | header, extended length and mask are consumed exactly, or the stream is used up |
| `WebSocket.Conn.ReadPayload` | controlplane/ws.go:90-98 | the unmasked payload, consumed exactly |
| `WebSocket.Conn.WriteFrame` | controlplane/ws.go:111-132 | the serialized unmasked frame is appended to the output |
| `WebSocket.Conn.ReadMessage` | controlplane/ws.go:61-109 | the loop returns the outcome, leaves the unread input and appends the pongs, one per earlier ping with equal payload (section 5.5.3 of RFC 6455) |

## Left out

- QR tables: the block lists of the 40 versions, the alignment positions, the BCH codes, the eight mask formulas, the lost-point score and the choice of version and mask are finite data or formulas; block list, preset modules and mask are parameters.
- QR segment writers: the payload bits of numeric, alphanumeric and Kanji segments are parameters with their exact lengths; byte segments are modelled.
- QR rendering: table, SVG, ASCII and canvas output, and the GIF header and its 255-byte sub-blocks.
- JavaScript numbers: undefined array slots are 0, as every arithmetic use makes them; shifts and masks on non-negative numbers are written as division, remainder and bit strings.
- Lzw.PixelsRecovered: the pixels are those of the writer's two-bit code size, 0 to 3, of which the QR images use two.
- I2c.Bus.Write: a failing transfer is taken to move nothing; what a bus does with a partly acknowledged burst is not part of this model.
- Edid.HotplugSafety: handlers are atomic and no transfer fails; scheduling inside a handler is not modelled.
- Edid.Driver.SetEdid: the physical-address check is a parameter, and CEC, interrupt masks, key erasure and control updates are foreign calls.
- Lanes.BitRateExact: progressive timings within the advertised caps; the interlaced halving and the detection of timings from registers are not modelled.
- Driver register initialisation, audio, V4L2 and media-controller plumbing.
- HID device errors, the absolute mouse and wheel with their floating-point clamping, JSON decoding and the dispatch on message types.
- Hid.HeldKeyRefinement: physically held keys are named by their usages, which is the same as by key (`Keymap.UsageNamesKey`).
- HID and macro sleeps are interleaving points; a macro delay writes nothing.
- Macro.MacroRoundTrip: white space is trimmed by code point as the string library does; invalid UTF-8 is not modelled.
- Watchdog tools: the commands that read signal, mode and frame rate are parameters of a poll, and an unsupported mode is compared as mode and number rather than as their joined text.
- Credentials: HMAC, base32, base64, JSON and random bytes are parameters or plain fields; a file is replaced by one atomic rename and, once renamed, durable.
- Session cookies, HTTP handlers, the QR provisioning link and secret grouping.
- Totp.Power: only the 32-bit product is wrapped; step counters stay within 63 bits as the clock does.
- WebSocket.Conn.ReadMessage: the upgrade handshake, fragmentation and flow control; writes succeed, as the source ignores their errors; a length of 2^63 or more, on which the source panics, is a separate outcome, and memory is unlimited below that.
- REST store, reverse proxy, Wake-on-LAN, installers, image build and device-tree overlays are plumbing.
