# potatocore bootloader: a Dafny model of the protocol stack

The potatocore bootloader is FPGA gateware plus a small host tool. The
gateware is a USB serial device. It takes commands framed as hex text,
runs them against the board's SPI flash, and answers in the same framing.
The host tool `flash` writes a bitstream image into that flash through the
device. It erases each 4 KiB sector, programs each 128-byte page, and reads
each page back to compare.

This project models the byte-level core of both sides and proves its
properties:

- `Bytes` (bytes.dfy): bytes, nibbles, the protocol's ASCII characters, and
  the modulo-256 sums that every checksum is built on.
- `HexDigits` (hex_digits.dfy): the `A2I` decoder from one ASCII hex digit
  to a nibble with an error flag, and the upper-case `I2A` table back.
- `SerialHex` (serial_hex.dfy): the frame decoder `SerialIHexInput`, one
  transition per character or `start` strobe. It waits for `.`, turns pairs
  of hex digits into bytes, and keeps the running checksum. Also the frame
  encoder `SerialIHexOutput`: its state machine runs to completion for one
  request and yields the characters it puts on the line.
- `SpiController` (spi.dfy): the SPI controller at clock-cycle level over
  bit lists. This covers the START/RUN/DONE state machine, the
  shift-register transfer of one byte, and the chip-select rule.
- `Top` (top.py's state machine; top.dfy): the orchestrator, one transition
  per handshake event.
  - Each SPI transfer consumes one byte the flash shifts out. That byte
    comes from an input sequence `miso`.
  - Each transfer is recorded with its `dout`/`first`/`last`.
  - Each encoder request is recorded as the controller issues it.
- `Programmer` (programmer.py; programmer.dfy):
  - `byte_add`, `complement` and `command`;
  - `chunk_iterable`;
  - `flash`, as the list of `(out_bytes, payload)` requests it sends;
  - the verify comparison of a read-back line against the expected one.
- `Protocol` (protocol.dfy): the two sides together. A command the host
  builds, arriving at a machine in START, is decoded, checked, executed on
  the flash and answered. Separate theorems cover a write, a read, a bad
  checksum and a bad hex digit. Each answer line is also shown as it
  appears on the wire.

Behaviour of the code worth knowing, all of it modelled as written:

- The decoder starts a frame at `.` (serial.py:35), although its class
  comment speaks of `:` (serial.py:7).
- A frame whose checksum does not cancel is answered with `c`, the sum in
  hex, and a newline (top.py:150-157). It is not answered with the error
  frame.
- The error frame is `e` and a newline. ERR sets `empty` (top.py:229-233),
  and the encoder then goes straight to the newline (serial.py:122-123),
  so `0xFF` is never sent.
- The input buffer (top.py:16) is never cleared between commands. Bytes
  past the current command keep their old values, and the model keeps
  them.
- A read answer is marked with whatever `s_chr` held last (top.py:207-218
  do not set it). After a write command that is `.` (top.py:188). After a
  rejected frame or an error it is `c` or `e`.

## Model

| member | source | states |
|---|---|---|
| HexDigits.A2I | potatocore_bootloader/util.py:12-30 | A character is accepted exactly when it is the upper- or lower-case digit of some nibble. An accepted character is that nibble's digit. A rejected character yields nibble 0. |
| HexDigits.A2IIsSwitch | potatocore_bootloader/util.py:12-30 | A2I agrees with a reference search over the sixteen cases of the switch, in the switch's order. |
| HexDigits.A2IRanges | potatocore_bootloader/util.py:13-30 | '0'..'9' decode to 0..9. Both 'A'..'F' and 'a'..'f' decode to 10..15. The error flag is raised exactly on non-hex characters. |
| HexDigits.CaseInsensitive | potatocore_bootloader/util.py:14-19 | The lower-case and upper-case letter of a nibble decode alike. |
| HexDigits.I2A | potatocore_bootloader/util.py:34 | Every table entry is a decimal digit or an upper-case letter A..F. |
| HexDigits.I2AIsTable | potatocore_bootloader/util.py:34 | Entry n of the table is character n of "0123456789ABCDEF". |
| HexDigits.DigitRoundTrip | potatocore_bootloader/util.py:13-34 | Decoding the digit of any nibble, in either case, gives the nibble back without error. |
| HexDigits.HexBytesInjective | potatocore_bootloader/serial.py:126-142 | Two byte strings with the same two-digits-per-byte hex text are equal. |
| SerialHex.OnChar | potatocore_bootloader/serial.py:33-70 | A character leads to ERROR exactly when it is not a hex digit and arrives in HIGH or LOW. In START only `.` leaves START, and it clears the checksum. No character changes the checksum once a frame has begun. |
| SerialHex.Ack | potatocore_bootloader/serial.py:71-79 | The `start` strobe in DONE adds the byte to the checksum modulo 256 and returns to HIGH. In ERROR it returns to START with the checksum kept. Elsewhere it changes nothing. |
| SerialHex.StartDiscards | potatocore_bootloader/serial.py:33-38 | In START, characters other than `.` are consumed and leave no trace. |
| SerialHex.NoDotStaysInStart | potatocore_bootloader/serial.py:33-38 | Input without `.` is consumed entirely, and the decoder stays in START unchanged. |
| SerialHex.ReceiveAfterDot | potatocore_bootloader/serial.py:33-38 | After junk without `.` and then `.`, the decoder is in HIGH with checksum 0, as if the junk had never come. |
| SerialHex.DecodePair | potatocore_bootloader/serial.py:39-70 | Two hex digits deliver the byte 16·A2I(first)+A2I(second) and advance the checksum by it. A bad first digit fails before the second is read. A bad second digit fails after it. |
| SerialHex.ReceiveBadChar | potatocore_bootloader/serial.py:39-54 | A non-hex character in HIGH moves the decoder to ERROR, with the bad character's decoded nibble (0) in the high half of the data register, and delivers no byte. |
| SerialHex.ErrorNeedsStart | potatocore_bootloader/serial.py:76-79 | ERROR consumes no characters. The strobe returns it to START. From there, decoding resumes only if a `.` follows. |
| SerialHex.DecodeFrameBody | potatocore_bootloader/serial.py:33-75 | `.` followed by the hex of n bytes decodes to exactly those n bytes. The rest of the input is untouched. The checksum is their sum modulo 256. |
| SerialHex.ReceiveHexBytes | potatocore_bootloader/serial.py:39-75 | From HIGH, the hex of any bytes in either case decodes to those bytes. The checksum register accumulates them one by one with wrap-around. |
| Bytes.AccumulateIsSum | potatocore_bootloader/serial.py:74 | The 8-bit checksum register, after adding bytes one at a time, holds their plain sum modulo 256. |
| SerialHex.Encode | potatocore_bootloader/serial.py:106-149 | With `first` and `empty`, a request puts exactly `s_chr` and a newline on the line. With `first` alone, it sends `s_chr` and then the two upper-case digits. Without `first`, it sends the digits only, whatever `empty` says. A newline follows exactly when `last` is set. |
| SerialHex.DrainFromHigh | potatocore_bootloader/serial.py:126-149 | From HIGH, the encoder sends the high digit, the low digit, and a newline if and only if `last` was latched. |
| SerialHex.FrameOnWire | potatocore_bootloader/serial.py:106-149 | A frame of n bytes, `first` on the first and `last` on the last, is the marker, the upper-case hex of the bytes, and a newline. |
| SerialHex.EncoderRoundTrip | potatocore_bootloader/serial.py:33-149 | What the encoder sends for a `.` frame of any non-empty bytes is decoded back into the same bytes. Only the newline is left. |
| SpiController.Tick | potatocore_bootloader/spi.py:22-56 | One clock cycle. When idle without `start`, nothing changes. `start` latches `dout` and `last` and enters RUN. `cs` changes only when `start` comes with `first` (it is raised) or in DONE with `last` latched (it is dropped). `din` changes only in DONE, to the byte shifted in. Rising edges shift `cipo` in, and falling edges shift `dout` out. |
| SpiController.ByteBitsRoundTrip | potatocore_bootloader/spi.py:43-51 | A byte read back from its MSB-first bit list is the byte. |
| SpiController.FromToBits | potatocore_bootloader/spi.py:45 | Bit lists read MSB first and numbers below 2^n written as n bits are inverse. |
| SpiController.RisingEdge | potatocore_bootloader/spi.py:42-48 | On a rising edge, `copi` shows bit n of `dout`, MSB first. The response bit is shifted in, and the count of bits exchanged goes up by one. |
| SpiController.FallingEdge | potatocore_bootloader/spi.py:40-41 | A falling edge shifts the outgoing register and keeps the transfer on track. |
| SpiController.DoneEdge | potatocore_bootloader/spi.py:49-56 | DONE publishes `din`, lowers `clk`, applies the `last` rule to `cs` and returns to START. |
| SpiController.Transfer | potatocore_bootloader/spi.py:26-56 | A transfer from idle takes 17 cycles and ends idle. It puts `dout` on `copi` MSB first. It makes `din` the 8 bits sampled on `cipo`, the first sampled as bit 7. It holds `cs` at `cs ∨ first` until the last cycle, then sets it to `¬last ∧ (cs ∨ first)`. |
| SpiController.Burst | potatocore_bootloader/spi.py:28-56 | N transfers with `first` on the first and `last` on the last exchange the bytes in order. They keep `cs` high throughout and drop it once, on the final cycle. |
| Top.TransferRefines | potatocore_bootloader/spi.py:28-56 | The one-step transfer event agrees with the cycle-level SPI controller. Started idle with the machine's `cs` and the flash's next byte on `cipo`, the controller shifts out exactly `dout`, ends idle again, and leaves in `din` and `cs` what the event records. |
| Top.Resync | potatocore_bootloader/top.py:59 | START's strobe brings the decoder back to its START phase. The characters it eats are a prefix of the input. A decoder already in START is left alone. |
| Top.ResyncAfterCommand | potatocore_bootloader/serial.py:39-54 | After a command the decoder waits in HIGH. The `\r` of the request sends it to ERROR, and the strobe clears that. |
| Top.StartStage | potatocore_bootloader/top.py:58-78 | START proceeds exactly when two flash bytes are available and the decoder resynchronises. It releases the flash with a `last` transfer of the stale `dout` and then starts READ STATUS (0x05) with `first`. |
| Top.PollXfers | potatocore_bootloader/top.py:79-96 | A poll of n transfers repeats the status read, with `last` on the final transfer only. |
| Top.Poll | potatocore_bootloader/top.py:79-96 | POLL_READY ends only in COUNT_BYTES with the flash released, and it neither reads nor sends characters. |
| Top.Leave | potatocore_bootloader/top.py:79-96 | In the cycle that leaves POLL_READY, the status read is started once more: one more transfer with `cs` low, whose byte ends up in `din`. It needs exactly one flash byte. |
| Top.PollStops | potatocore_bootloader/top.py:79-96 | When POLL_READY ends, it has issued one transfer per status read until bit 0 is clear, one with `last`, and the exit transfer with `cs` low. The exit transfer's byte is in `din`, and nothing else has changed. |
| Top.Header | potatocore_bootloader/top.py:97-120 | COUNT_BYTES, RETURN_BYTES and CHECKSUM wait exactly while the decoder is starved. They go on to the next state, or to ERR with the decoder in ERROR, and touch neither flash nor encoder. |
| Top.Fill | potatocore_bootloader/top.py:121-137 | READ_DATA ends in CHECKSUM, or in ERR with the decoder in ERROR, and touches neither flash nor encoder. |
| Top.FillIsReceiveMany | potatocore_bootloader/top.py:121-137 | READ_DATA reaches CHECKSUM exactly when the decoder delivers the remaining `byte_count` bytes. It stores them at indices k..byte_count-1 and leaves the rest of the buffer alone. A decode error leads to ERR. With `byte_count` = 0 it goes straight on. |
| Top.ChecksumFrame | potatocore_bootloader/top.py:150-157 | The checksum frame is `c`, the checksum in upper-case hex, and a newline. |
| Top.AckFrame | potatocore_bootloader/top.py:185-193 | The acknowledgement is `.` and a newline, whatever the data register holds. |
| Top.RunStage | potatocore_bootloader/top.py:149-168 | RUN never touches the flash or the incoming characters, and changes no register but the state, the marker and the encoder's data. A non-zero checksum puts `c`, the checksum in upper-case hex and a newline on the wire and returns to START. A zero checksum sends nothing and goes to SPI_WRITE. |
| Top.WriteXfersAt | potatocore_bootloader/top.py:169-183 | Write transfer j sends buffer byte j. It has `first` exactly when j = 0 and the flash is not already selected, and `last` exactly on the final byte of a command that reads nothing back. |
| Top.Write | potatocore_bootloader/top.py:169-196 | After the write, a command with nothing to return sends the `.` acknowledgement and returns to START. Otherwise it goes to SPI_STALL and sends nothing. |
| Top.WriteIsReference | potatocore_bootloader/top.py:169-196 | SPI_WRITE issues exactly the transfers `WriteXfers` lists for the first `byte_count` buffer bytes, one flash byte each, with the `cs` that the chip-select rule gives. |
| Top.StallStage | potatocore_bootloader/top.py:197-206 | SPI_STALL is one transfer of 0, whose flash byte lands in `din`, and then SPI_READ. |
| Top.Read | potatocore_bootloader/top.py:207-226 | SPI_READ completes exactly when enough flash bytes remain. It ends in START with the marker unchanged. |
| Top.ReadIsReference | potatocore_bootloader/top.py:207-226 | SPI_READ sends `din` and then each following flash byte, one encoder request per count. It issues one zero transfer per count, `last` from count `n-1` on, and leaves `cs` low. |
| Top.ReadRequestsAt | potatocore_bootloader/top.py:212-216 | Encoder request j of SPI_READ carries byte j, `first` on count 1 and `last` from count n on. |
| Top.ReadRequestsAreFrame | potatocore_bootloader/top.py:207-226 | The requests of a whole SPI_READ of n bytes are exactly those that send the bytes as one frame. |
| Top.Step | potatocore_bootloader/top.py:57-240 | Every state leads forward in the command's order or back to START. START leads to POLL_READY, and ERR is entered only with the decoder in ERROR. |
| Top.Serve | potatocore_bootloader/top.py:57-240 | A command that completes returns the machine to START. |
| Programmer.ByteAdd | potatocore_bootloader/programmer.py:4-5 | The result is a byte congruent to a + b modulo 256. |
| Programmer.Complement | potatocore_bootloader/programmer.py:7-8 | The result brings a to zero modulo 256. It is 0 exactly when a already is. |
| Programmer.ComplementCancels | potatocore_bootloader/programmer.py:4-8 | `byte_add(a, complement(a))` is 0, and complementing twice gives a back modulo 256. |
| Programmer.Hex02OfByte | potatocore_bootloader/programmer.py:13 | `{:02x}` of a byte is its two lower-case hex digits. |
| Programmer.FrameChecksum | potatocore_bootloader/programmer.py:13 | The bytes of every command frame, checksum included, add up to 0 modulo 256. |
| Programmer.CommandIsFrame | potatocore_bootloader/programmer.py:10-13 | `command` is `.`, the lower-case hex of length, response length, command and checksum, then `\r\n`. |
| Programmer.Chunks | potatocore_bootloader/programmer.py:20-26 | The chunks concatenate to the input. None is empty, none is longer than `size`, and all but the last are exactly `size`. |
| Programmer.ChunksAppend | potatocore_bootloader/programmer.py:20-26 | Input whose first part is a whole number of chunks chunks as that part followed by the rest. |
| Programmer.ChunksOfChunks | potatocore_bootloader/programmer.py:35-38 | Cutting the image into 4 KiB chunks and those into 128-byte pages gives the image's 128-byte pages. All chunks but the last are 32 whole pages. |
| Programmer.ToBytes3 | potatocore_bootloader/programmer.py:39 | `to_bytes(3, "big")` succeeds exactly for addresses in [0, 2^24), giving three bytes. |
| Programmer.Bytes3RoundTrip | potatocore_bootloader/programmer.py:37-39 | Three big-endian bytes and the addresses below 2^24 are inverse. |
| Programmer.FlashPagesIsReference | potatocore_bootloader/programmer.py:38-42 | Within a sector, the page loop sends WREN, page program and read-back for each page in turn, at 128-byte steps. |
| Programmer.SectorIsReference | potatocore_bootloader/programmer.py:35-42 | One sector is its WREN and sector erase at the chunk's address, then the page requests of its pages. |
| Programmer.FlashChunksIsReference | potatocore_bootloader/programmer.py:35-42 | Over whole sectors, the chunk loop is the flat description. Every 32 pages, WREN and erase come first, then each page's three requests, at 0x1000·i + 128·j from the base. |
| Programmer.FlashIsReference | potatocore_bootloader/programmer.py:32-42 | When every page address fits in three bytes, `flash` sends exactly the flat description of the image's pages. |
| Programmer.FlashCompletes | potatocore_bootloader/programmer.py:35-39 | `flash` gets through the whole image exactly when every page address lies in [0, 2^24). Otherwise `to_bytes` raises. |
| Programmer.FlashPagesCompletes | potatocore_bootloader/programmer.py:38-39 | The page loop finishes exactly when all its page addresses fit. |
| Programmer.TrimStart | potatocore_bootloader/programmer.py:44 | `strip` removes only blanks from the front, all of them. |
| Programmer.TrimEnd | potatocore_bootloader/programmer.py:44 | `strip` removes only blanks from the back, all of them. |
| Programmer.StripReadLine | potatocore_bootloader/programmer.py:44 | Stripping a device line leaves its marker and hex digits. |
| Programmer.UpperChar | potatocore_bootloader/programmer.py:43 | The result is never a lower-case letter. It is the character itself or the character 32 below it, and it differs from the input exactly when the input is a lower-case letter. |
| Programmer.UpperOfHex | potatocore_bootloader/programmer.py:43 | Upper-casing `page.hex()` gives the I2A digits the device sends. |
| Programmer.Expected | potatocore_bootloader/programmer.py:43 | The expected line is `.`, the page in upper-case hex, and a newline. |
| Programmer.ReportedIffDiffers | potatocore_bootloader/programmer.py:43-45 | A read-back of data as long as the page is reported exactly when the data differs from the page. |
| Programmer.ErrorLinesReported | potatocore_bootloader/programmer.py:44-45 | A `c` or `e` answer, or any line with another marker, is always reported. |
| Programmer.BlankReadbackPasses | potatocore_bootloader/programmer.py:44 | As written, an empty or blank read-back, or the bare acknowledgement `.\n`, is never reported. |
| Programmer.ReportedStrictIff | potatocore_bootloader/programmer.py:44 | Corrected: a read-back passes exactly when, stripped, it is the whole expected line. The page's own line passes, and blank lines are reported. |
| Programmer.ReportedStrictIffDiffers | potatocore_bootloader/programmer.py:44 | Corrected: a `.` line of any data passes exactly when the data is the page. |
| Protocol.CheckCancels | potatocore_bootloader/programmer.py:13 | The checksum `command` appends brings the decoder's accumulated sum over the frame to 0. |
| Protocol.CommandOnWire | potatocore_bootloader/programmer.py:10-13 | The host's command is a frame with that checksum, then `\r\n`. |
| Protocol.CommandSumsToZero | potatocore_bootloader/top.py:150 | The host's command reaches RUN with the checksum register at 0, the value on which RUN goes on to SPI_WRITE. |
| Protocol.PollWaits | potatocore_bootloader/top.py:79-96 | Against a flash that is busy for a while and then idle, POLL_READY issues one transfer per busy status, one for the idle one, one with `last`, and the exit transfer. It then enters COUNT_BYTES with `cs` low and the exit transfer's byte in `din`. |
| Protocol.StartThenPoll | potatocore_bootloader/top.py:58-96 | A command begins with START's two transfers, the status polls and the exit transfer, in that order. |
| Protocol.DecodeFrame | potatocore_bootloader/top.py:97-148 | Junk without `.` followed by a frame brings COUNT_BYTES to RUN. The header fields are set, the command is at the front of the buffer, and the checksum register holds the sum of all the frame's bytes. |
| Protocol.ServeFrame | potatocore_bootloader/top.py:58-148 | Any frame arriving at START is decoded into RUN after the polls, in the state `DecodeFrame` describes. |
| Protocol.ExecuteRejected | potatocore_bootloader/top.py:149-162 | At RUN, a non-zero sum is answered with the `c` frame, and START follows with nothing sent to the flash. |
| Protocol.ExecuteWrite | potatocore_bootloader/top.py:163-196 | At RUN, a zero sum with nothing to return writes the command to the flash and acknowledges it. |
| Protocol.ExecuteRead | potatocore_bootloader/top.py:163-226 | At RUN, a zero sum with out > 0 does three things. It writes the command without releasing the flash and clocks one stall transfer. It then answers the next `out` flash bytes as one frame and releases the flash on the last transfer. |
| Protocol.ServeWrite | potatocore_bootloader/top.py:58-196 | A host write command ends back in START. It has issued START's transfers, the polls, the exit transfer and the command bytes in one selection released after the last byte, and it has answered `.` and a newline. |
| Protocol.WriteAnswer | potatocore_bootloader/top.py:185-193 | A write command is answered on the line with `.` and a newline. |
| Protocol.ServeRead | potatocore_bootloader/top.py:58-226 | A host read command ends back in START. Its transfers are START's, the polls and the exit transfer, the command bytes with the flash kept selected, one stall transfer, and `out` reads, the last releasing the flash. It answers with the `out` flash bytes that follow the command's, as one frame marked with the current `s_chr`. |
| Protocol.ReadAnswer | potatocore_bootloader/top.py:207-226 | A read command is answered with `s_chr`, the bytes read in upper-case hex, and a newline. |
| Protocol.ReadBackChecked | potatocore_bootloader/programmer.py:42-45 | When the device reads a page back after a write, the check as written and the corrected check both report the page exactly when the flash returned different bytes. |
| Protocol.ServeRejected | potatocore_bootloader/top.py:149-162 | A frame whose bytes do not sum to zero is answered with `c` and the sum, and nothing after the polls and their exit transfer goes to the flash. |
| Protocol.RejectedAnswer | potatocore_bootloader/top.py:150-157 | A rejected frame is answered on the line with `c`, two upper-case hex digits and a newline. |
| Protocol.ServeBadHex | potatocore_bootloader/top.py:227-240 | A non-hex character after `.` is answered with the error frame. Nothing after the polls and their exit transfer goes to the flash, and the decoder is left in ERROR for the next START. |
| Protocol.ErrorAnswer | potatocore_bootloader/top.py:227-240 | The error frame is `e` and a newline on the line. No `FF` is sent. |

## Left out

- Clock-cycle timing in the orchestrator is left out: the `sync` and `usb` clock domains, the `stage_done` handshake cycles, and the buffer read port's latency. `Top` takes one step per event. The SPI controller alone is modelled cycle by cycle.
- START's cycle-level transfers are modelled as one release transfer and one READ STATUS transfer. Extra transfers that START may clock while `cs` is already low and `stage_done` is settling are not modelled.
- The flash chip itself is not modelled. The bytes it shifts out are the input `miso`, so busy or idle status and read data are whatever the input says.
- A state waiting for input that never comes (no characters, no flash bytes) ends in `Stuck`. The hardware would wait forever, and its lack of a timeout is not modelled beyond that.
- Top.Serve: proves only that a completed command returns to START. The concrete results are stated by the `Protocol` theorems for the four kinds of command.
- Top.Poll and Top.PollStops: they fix the transfers of a poll that ends, the exit transfer included. A flash that stays busy forever is only seen as running out of `miso`.
- SerialHex.Encode: the encoder is run to completion per request. The `ready`/`valid` handshake with the USB device, which only paces the characters, is not modelled.
- The USB serial device, the clock generator, the `USRMCLK` primitive, `rgb.py`, `board.py`, `build()`, `SpiTest` and `frontend` are not part of this model. They are hardware glue or toolchain setup.
- In programmer.py, `run_command`'s port writes and `readline`, `open` and `chunk_file`'s reads, and `print` are left out. The image is a byte sequence. The port is the list of requests `flash` would send. The read-back line is a parameter of the verify check.
- Programmer.FlashIsReference: `flash` stops at its first `OverflowError`. The model records that as an incomplete plan and does not say which requests came before it; `FlashCompletes` says when that happens.

## Findings

| source | as written | input that shows it | evidently intended | confidence | as-written member | corrected member |
|---|---|---|---|---|---|---|
| potatocore_bootloader/programmer.py:44 | `expected.startswith(readback.strip())` passes any read-back that, stripped, is a prefix of the expected line. | The line `".\n"` read out of step with the command, for any page: for example a write's acknowledgement still waiting in the port when the read-back is read. The device's own answer to the read-back is judged exactly (Protocol.ReadBackChecked), so only such an out-of-step line shows it. | Report the page unless the stripped read-back is the whole expected line. | not executed | Programmer.BlankReadbackPasses | Programmer.ReportedStrictIff |
