# LSY201 serial JPEG camera driver: protocol engine

This project models the protocol engine of the LSY201 driver
(`lib/LSY201/LSY201.cpp`) in Dafny. The driver talks to a serial JPEG
camera through a single byte stream. It sends fixed command frames and reads
the module's acknowledgement frames. It runs a boot handshake that reads the
module's boot log up to the line `"Init end\r\n"`. It asks for a picture and
its size. It then reads the JPEG data in chunks until the end-of-image marker
0xFF 0xD9 (ITU-T T.81, Annex B.1.1.3) appears, even when the marker is split
across two chunks.

The model has four modules:

- `Wire` (`wire.dfy`) holds bytes, the command and acknowledgement frames,
  the big-endian 16-bit composition and the 8-byte chunk parameter block.
- `EndOfImage` (`end_of_image.dfy`) holds the byte-by-byte marker scan with
  its one-byte lookback. `FirstEoi` specifies it, and lemmas give its meaning
  and its behaviour across chunk boundaries.
- `BootLog` (`boot_log.dfy`) specifies the boot handshake. `ScanLog` is the
  reference scan over the boot log. `CString` is the zero-terminated string
  that `strcmp` sees in the 25-byte line buffer. Lemmas prove that the buffer
  comparison decides exactly "this line is the terminator". They also prove
  that the handshake stops after the first terminator line.
- `Camera` (`camera.dfy`) holds the driver as the class `Lsy201`. Its state
  has four fields:
  - `input` is the bytes the module has sent that are not read yet;
  - `output` is the bytes written to the module;
  - `last` is the lookback byte of the chunk reader;
  - the ghost field `trace` records every byte written or read, in order.

  Each public operation of the driver is a method. Its contract gives the new
  `output`, `input`, `last`, caller buffer and `trace` in terms of the old
  state. The chunk read is specified by the function `ChunkExchange`, and
  `ExchangeMeaning` proves what that function means in terms of marker
  positions.

The lookback byte is a function-local `static`
(`lib/LSY201/LSY201.cpp:74`). It is initialised once to 0x00 and never reset
between pictures; the model keeps it the same way: `last` is set to 0x00 by
the constructor and is never reset afterwards. `EndOfImage.StaleLookback`
states the consequence: a transfer whose first byte is 0xD9 stops at once if
the lookback left by the previous chunk read is 0xFF (its last data byte, or
0xFF after a read that stopped at a marker), even when that read belonged to
an earlier picture. The acknowledgement bytes read in between never enter the
lookback.

## Model

| member | source | states |
|---|---|---|
| Wire.FrameLayout | lib/LSY201/LSY201.cpp:6-19 | each acknowledgement template answers its request frame (0x56 0x00 and 0x76 0x00 headers, the same command byte, 0x00 fourth byte), and the frames are 4, 5, 5, 8 and 5 bytes long with acknowledgements of 4, 5, 7, 5 and 5 bytes |
| Wire.HighByte | lib/LSY201/LSY201.cpp:79-83 | `(v & 0xFF00) >> 8` is the number of whole multiples of 256 in v |
| Wire.LowByte | lib/LSY201/LSY201.cpp:80-84 | `v & 0x00FF` is the byte that differs from v by a multiple of 256 |
| Wire.U16Of | lib/LSY201/LSY201.cpp:69 | `hi << 8` or-ed with `lo` (equal to `hi * 256 + lo`, since the low byte of `hi << 8` is zero) is a 16-bit value whose high byte is `hi` and whose low byte is `lo` |
| Wire.SplitThenJoin | lib/LSY201/LSY201.cpp:78-86 | every 16-bit value is the big-endian composition of its `(v & 0xFF00) >> 8` and `v & 0x00FF` bytes |
| Wire.ChunkParams | lib/LSY201/LSY201.cpp:78-87 | the chunk parameter block is 8 bytes long |
| Wire.ChunkParamsLayout | lib/LSY201/LSY201.cpp:78-87 | bytes 0-1 decode to the offset, bytes 4-5 to the length, bytes 2-3 are 0x00 0x00, and bytes 6-7 are 0x00 0x0A |
| Wire.ChunkParamsInjective | lib/LSY201/LSY201.cpp:78-87 | two different (offset, length) requests never produce the same parameter block |
| EndOfImage.EoiAt | lib/LSY201/LSY201.cpp:97 | the test `last == 0xFF && buf[-1] == 0xD9` at data byte i, with the lookback standing for the byte before byte 0 |
| EndOfImage.Lookback | lib/LSY201/LSY201.cpp:100 | the byte `last = buf[-1]` leaves after a chunk: its final byte, or the old lookback when nothing was read |
| EndOfImage.FirstEoi | lib/LSY201/LSY201.cpp:93-101 | the byte-by-byte scan carrying the previous byte reports an index inside the data |
| EndOfImage.FirstEoiIsFirst | lib/LSY201/LSY201.cpp:93-101 | the scan reports the first index whose byte is 0xD9 and whose previous byte (the lookback for index 0) is 0xFF; it reports nothing exactly when no index completes a marker |
| EndOfImage.EoiAcrossChunks | lib/LSY201/LSY201.cpp:93-101 | scanning two chunks in turn, with the lookback the first leaves, finds the same marker as scanning their concatenation; this includes a marker split across the boundary |
| EndOfImage.StaleLookback | lib/LSY201/LSY201.cpp:74-100 | when the first byte is 0xD9, the scan stops there exactly when the carried lookback is 0xFF, whatever picture that byte came from |
| EndOfImage.ScanStep | lib/LSY201/LSY201.cpp:95-100 | with no marker among the first i bytes, byte i completes one exactly when the lookback is 0xFF and the byte is 0xD9 |
| EndOfImage.ChunkStopsAt | lib/LSY201/LSY201.cpp:93-98 | a marker completed by byte i < size is where the whole chunk scan stops |
| EndOfImage.ChunkByteAvailable | lib/LSY201/LSY201.cpp:93-95 | while no marker has been seen among the first i < size bytes, byte i has been sent |
| EndOfImage.ChunkComplete | lib/LSY201/LSY201.cpp:93-103 | a chunk with no marker in its first `size` bytes has them all plus the closing acknowledgement |
| BootLog.CString | lib/LSY201/LSY201.cpp:45 | the zero-terminated string `strcmp` reads from the line buffer: its bytes up to the first zero |
| BootLog.CStringIsPrefix | lib/LSY201/LSY201.cpp:45 | the string `strcmp` reads from a buffer is a zero-free prefix of it, ended by the buffer's first zero or by its end |
| BootLog.ScanLog | lib/LSY201/LSY201.cpp:37-53 | the handshake scan, when it succeeds, ends past the byte it started from and inside the log |
| BootLog.BootLogEnd | lib/LSY201/LSY201.cpp:37-53 | the number of boot-log bytes the handshake reads lies within the log |
| BootLog.BootLogEndIsFirst | lib/LSY201/LSY201.cpp:37-53 | the handshake consumes exactly up to the end of the FIRST complete line equal to "Init end\r\n": that line ends the consumed bytes, and no earlier line start begins the terminator |
| BootLog.BootLogComplete | lib/LSY201/LSY201.cpp:37-53 | a log with a terminator line at a line start j, whose lines up to and including it fit the 25-byte buffer with their '\n', makes the handshake succeed, ending no later than just past that line |
| BootLog.BootLogEndAt | lib/LSY201/LSY201.cpp:37-53 | when j is the first terminator line and every line up to it fits, the handshake consumes exactly the bytes before j plus the terminator line |
| BootLog.BootLogSucceeds | lib/LSY201/LSY201.cpp:37-53 | the handshake succeeds exactly when the log holds a terminator line such that every line up to and including it fits the buffer |
| BootLog.ScanComplete | lib/LSY201/LSY201.cpp:37-53 | from any line start, a later terminator line preceded only by lines that fit makes the scan succeed no later than just past it |
| BootLog.ScanFitsAll | lib/LSY201/LSY201.cpp:37-53 | from any line start, a successful scan has seen only lines whose '\n' lies within the 25-byte buffer |
| BootLog.OnlyLineStart | lib/LSY201/LSY201.cpp:49-52 | inside a line read so far, no position after its start begins another line |
| BootLog.ScanEndsAtTerminator | lib/LSY201/LSY201.cpp:37-53 | from any line start, the scan stops right after a complete terminator line |
| BootLog.ScanIsFirst | lib/LSY201/LSY201.cpp:37-53 | from any line start, no terminator line begins before the one the scan stops after |
| BootLog.ScanGoesOn | lib/LSY201/LSY201.cpp:51-52 | a byte other than '\n' extends the current line, and the scan continues in it |
| BootLog.ScanFinds | lib/LSY201/LSY201.cpp:41-46 | a line equal to "Init end\r\n" ends the scan right after its '\n' |
| BootLog.ScanNextLine | lib/LSY201/LSY201.cpp:41-50 | any other completed line restarts the scan at the next line, and no terminator begins inside it |
| BootLog.NoEarlyTerminator | lib/LSY201/LSY201.cpp:41-50 | a completed line that is not the terminator contains no start of a terminator line |
| BootLog.LineInBuffer | lib/LSY201/LSY201.cpp:35-48 | with the current line stored at the start of the zero-filled 25-byte buffer, `strcmp(buf, "Init end\r\n") == 0` holds exactly when the line is the terminator |
| BootLog.TerminatorLine | lib/LSY201/LSY201.cpp:45 | for a line ending at its only '\n' and padded with zeros to 25 bytes, `strcmp` equality holds exactly when the line is "Init end\r\n" |
| BootLog.PaddedInitEnd | lib/LSY201/LSY201.cpp:45 | the terminator line padded with zeros compares equal |
| BootLog.PaddedTerminator | lib/LSY201/LSY201.cpp:45 | a padded line that compares equal is the terminator line itself |
| BootLog.CStringPrefix | lib/LSY201/LSY201.cpp:45 | the bytes `strcmp` reads are exactly those before the first zero |
| Camera.ChunkExchange | lib/LSY201/LSY201.cpp:91-105 | the reference outcome of one chunk read: whether the transfer goes on, the bytes delivered, the bytes consumed and the lookback left behind |
| Camera.ExchangeLayout | lib/LSY201/LSY201.cpp:91-105 | the chunk data is the prefix of what follows the 5-byte acknowledgement, at most `size` bytes; the read consumes the acknowledgement, the data and, when it goes on, the closing acknowledgement |
| Camera.ExchangeMeaning | lib/LSY201/LSY201.cpp:93-105 | a chunk read returns true exactly when none of the first `size` data bytes completes 0xFF 0xD9 (with the incoming lookback before byte 0). It then delivers exactly those bytes, reads 5 more and keeps the last byte (or the old lookback when `size` is 0). Otherwise it delivers the data up to and including the first marker's 0xD9, reads nothing after it and keeps 0xFF |
| Camera.ExchangeStops | lib/LSY201/LSY201.cpp:95-98 | a marker completed by byte i ends the chunk read right there, with `false` and lookback 0xFF |
| Camera.ExchangeCompletes | lib/LSY201/LSY201.cpp:93-105 | a chunk of `size` bytes with no marker ends with `true`, after the closing acknowledgement |
| Camera.Lsy201.constructor | lib/LSY201/LSY201.cpp:21 | a fresh driver has written nothing and holds lookback 0x00, the value the `static` starts with |
| Camera.Lsy201.Tx | lib/LSY201/LSY201.cpp:120-134 | appends exactly the frame's bytes to the output, in order, and reads nothing |
| Camera.Lsy201.ReadByte | lib/LSY201/LSY201.cpp:159-165 | consumes and returns the first pending byte |
| Camera.Lsy201.Rx | lib/LSY201/LSY201.cpp:136-157 | consumes exactly as many bytes as the template has and writes nothing; each byte's comparison with the template is only an observation, and the bytes consumed do not depend on it |
| Camera.Lsy201.DiscardAllInput | lib/LSY201/LSY201.cpp:114-118 | consumes exactly the bytes already pending |
| Camera.Lsy201.Reset | lib/LSY201/LSY201.cpp:28-56 | drains pending input, writes exactly the reset frame, reads its 4-byte acknowledgement, then reads the boot log exactly up to the end of its first terminator line, in that order |
| Camera.Lsy201.ReadBootLog | lib/LSY201/LSY201.cpp:35-53 | the line-buffer loop consumes exactly the boot-log bytes that `BootLogEnd` specifies and nothing after them |
| Camera.Lsy201.ReadLineByte | lib/LSY201/LSY201.cpp:39 | `*p = read_byte()` stores the next log byte at the write position and leaves the rest of the buffer zero |
| Camera.Lsy201.Clear | lib/LSY201/LSY201.cpp:49 | `memset` leaves the 25-byte buffer all zeros |
| Camera.Lsy201.TakePicture | lib/LSY201/LSY201.cpp:58-62 | writes exactly the take-picture frame, then reads its 5-byte acknowledgement |
| Camera.Lsy201.ReadJpegFileSize | lib/LSY201/LSY201.cpp:64-70 | writes the size query, reads the 7-byte acknowledgement and two more bytes, and returns their big-endian value |
| Camera.Lsy201.StopTakingPictures | lib/LSY201/LSY201.cpp:108-112 | writes exactly the stop frame, then reads its 5-byte acknowledgement |
| Camera.Lsy201.ReadJpegFileContent | lib/LSY201/LSY201.cpp:72-106 | writes the 8-byte read command and then the parameter block for (offset, size) before reading anything. The result, bytes consumed, new lookback and buffer are those of `ChunkExchange` on the old lookback and input; buffer positions past the delivered data keep their old contents |
| Camera.Lsy201.SendChunkRequest | lib/LSY201/LSY201.cpp:76-89 | writes the read command followed by the parameter block for (offset, size) |
| Camera.Lsy201.ReceiveChunk | lib/LSY201/LSY201.cpp:91-105 | reads the acknowledgement, the data and, only when no marker ended the data, the closing acknowledgement, as `ChunkExchange` specifies |
| Camera.Lsy201.ReadChunkData | lib/LSY201/LSY201.cpp:93-101 | the `while (size --)` loop stores each byte in the caller's buffer and stops after the byte that completes a marker or after `size` bytes, as `ChunkExchange` specifies |
| Camera.Lsy201.ReadDataByte | lib/LSY201/LSY201.cpp:95 | `*buf++ = read_byte()` stores the next data byte at position i and changes no other position |
| Camera.Lsy201.ReadClosingAck | lib/LSY201/LSY201.cpp:103 | reads the 5-byte acknowledgement that follows a complete chunk |

## Left out

- All output to the debug stream is left out: hex dumps, "ok" and "expected" lines, and printing of the boot log. `setDebugStream` (`lib/LSY201/LSY201.cpp:23-26`) is left out too. This output never affects control flow. `Rx` returns the per-byte comparisons instead of printing them.
- The `Stream` object is modelled as the two sequences `input` and `output`. When bytes arrive is not modelled. `DiscardAllInput` takes `pending`, the number of bytes that have already arrived when draining starts.
- Camera.Lsy201.ReadByte: the busy-wait until a byte is available becomes the precondition that one is pending. So every operation requires that the module has already sent all the bytes it will read. The driver has no timeout, so a module that stays silent blocks it forever; the model does not represent that case.
- Camera.Lsy201.ReadBootLog: requires that the log contains a terminator line and that every line before it, including its '\n', fits in the 25-byte buffer. The source has no bounds check, and a longer line makes it write past the buffer. `ScanLog` returns None in both of those cases, and `BootLog.BootLogSucceeds` proves that the requirement means exactly this. A line of exactly 25 bytes is admitted: it is written inside the buffer, but it leaves no zero byte there, so the debug print of `buf` at `lib/LSY201/LSY201.cpp:43`, left out as logging, would read past the buffer; the `strcmp` at line 45 stops at the first differing byte and stays inside.
- Camera.Lsy201.ReadJpegFileSize: C++ leaves the evaluation order of the two `read_byte()` calls in one expression unspecified. The model reads the high byte first.
- Camera.Lsy201.ReadJpegFileContent: `last` is a function-local `static` in C++, so all driver objects share it. The model keeps it per object. With a single driver object the two agree.
- Camera.Lsy201.ReadJpegFileContent: the caller's `uint8_t *buf` is modelled as an array with at least `size` elements. Writing past the caller's buffer is not modelled.
- JPEG content beyond the 0xFF 0xD9 marker is not interpreted.
