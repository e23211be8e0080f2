# MySmartUSB command protocol in Dafny

This project models the command/response layer of `mysmartusb.py`. That
script drives a MySmartUSB AVR programmer over a serial line. Every command is
one byte, sent behind a fixed 7-byte magic prefix (`E6 B5 BA B9 B2 B3 A9`).
The reply's shape depends on the command:

- `R` (reset programmer) gets no reply;
- `v` (version) gets free text bracketed by `F7` bytes;
- every other command gets a 5-byte envelope `F7 B1 <payload> 0D 0A`. The
  host finds that envelope by sliding a 5-byte window over the stream one
  byte at a time, then checks that the payload echoes the command. The mode
  query `i` is the exception: its payload is the current mode.

The model has five modules:

- `Bytes`: the `byte` type, `Option`, and the ASCII decoding used by
  `getVersion`.
- `Hex`: the `hexdump` helper and the `"%02X"` rendering, with a parser that
  inverts them.
- `Protocol`: the pure codec. It covers the frame, the envelope search, the
  version slice with Python's `find`/slice semantics, the echo check, and
  the error messages. `Transact`, `ModeQuery` and `SetModeRun` describe what
  one exchange, one mode query and one `setMode` call return, how far they
  read, and what they write. Lemmas state the protocol's properties about
  these functions.
- `Serial`: the port as an abstract byte channel. The device's output is a
  fixed input sequence read through a cursor. Everything the host does
  (write, flush, read, the settling delays) goes into an event trace, in
  order. `Port.Valid()` keeps the cursor inside the input; each read
  states exactly which input bytes it returns and logs.
- `Device`: the `MySmartUsb` class. Its methods write frames and run the
  resynchronisation loop against a `Port`. Each method is proved to agree
  with the `Protocol` function for the same operation, including where the
  cursor ends and exactly which bytes were written.

A blocking `read(n)` that would wait for ever because the device never sends
`n` more bytes becomes the model-only error `NoReply`, after all remaining
input is consumed. For `v`, the bytes "currently buffered" (`inWaiting()`)
are all the input not yet read.

Two behaviours of the code are worth stating outright, and the model keeps
both:

- A version reply without `F7` is not rejected: `find` returns -1, so the
  buffer minus its last byte is returned.
- `decode('ASCII')` accepts any byte below `0x80`, control characters
  included.

## Model

| member | source | states |
|---|---|---|
| `Bytes.AsciiDecode` | mysmartusb.py:76-78 | decoding succeeds exactly when every byte is below 0x80, and then each character has the code of its byte |
| `Bytes.AsciiRoundTrip` | mysmartusb.py:76 | a successful decode loses nothing: re-encoding the text gives the bytes back |
| `Hex.HexByte` | mysmartusb.py:34 | `"%02X"` renders a byte as two characters that parse back to that byte |
| `Hex.HexString` | mysmartusb.py:31-35 | a hexdump is two characters per byte, all upper-case hex digits |
| `Hex.HexStringRoundTrip` | mysmartusb.py:31-35 | a hexdump determines its bytes: parsing it gives them back |
| `Hex.Hexdump` | mysmartusb.py:31-35 | the loop that appends one rendering per byte produces the hexdump of the whole input |
| `Protocol.Frame` | mysmartusb.py:85 | a frame is 8 bytes: the 7-byte magic prefix, then the command byte |
| `Protocol.FramesRoundTrip` | mysmartusb.py:85 | back-to-back frames are unambiguous: the written bytes parse back into the command sequence |
| `Protocol.AlignedIsEnvelope` | mysmartusb.py:100 | the loop's marker test on a 5-byte window passes exactly when the window is the envelope `F7 B1 _ 0D 0A` around its own middle byte |
| `Protocol.FindEnvelope` | mysmartusb.py:99-101 | the scan's result is the least index at or after the start where `F7 B1 _ 0D 0A` lines up; it finds nothing only when no envelope exists there |
| `Protocol.FindEnvelopeIs` | mysmartusb.py:99-101 | an envelope at `k` with none between the start and `k` is exactly what the scan returns |
| `Protocol.FindEnvelopeNone` | mysmartusb.py:99-101 | with no envelope anywhere after the start, the scan finds nothing |
| `Protocol.Find` | mysmartusb.py:96-97 | `bytes.find`: -1 exactly when the byte is absent, otherwise an index holding it with no earlier occurrence |
| `Protocol.FindAfter` | mysmartusb.py:96-97 | `find` returns the position of the first marker after a marker-free prefix |
| `Protocol.SliceTo` | mysmartusb.py:97 | Python's `ret[:j]`: for `j >= 0` the first `j` bytes; for the `-1` that `find` returns on a miss, every byte of the result comes from the input, so the slice cannot introduce an `F7` (`VersionNoMarker` gives its exact value) |
| `Protocol.VersionSlice` | mysmartusb.py:96-97 | the sliced version bytes never contain an `F7` marker |
| `Protocol.VersionBetweenMarkers` | mysmartusb.py:94-98 | for `pre F7 text F7 post` with no `F7` in `pre` or `text`, the result is exactly `text` |
| `Protocol.VersionNoMarker` | mysmartusb.py:96-97 | with no `F7` at all, the whole buffer minus its last byte is returned |
| `Protocol.VersionOneMarker` | mysmartusb.py:96-97 | with exactly one `F7`, everything after it minus the last byte is returned |
| `Protocol.DecodeVersion` | mysmartusb.py:75-78 | fails with "Failed to read version string" exactly when some byte is above 0x7F; otherwise it returns the same codes as text |
| `Protocol.VersionExample` | mysmartusb.py:73-78 | a buffer `... F7 "1.23" F7 ...` yields the version string "1.23" |
| `Protocol.MismatchMessage` | mysmartusb.py:105-107 | the message is "Invalid command return: " followed by two hex digits that read back as the received payload |
| `Protocol.EchoCheck` | mysmartusb.py:104-108 | an aligned envelope is accepted exactly when the command is `i` or the payload equals the command; on acceptance the reply is the one payload byte, otherwise the mismatch error names that byte |
| `Protocol.Transact` | mysmartusb.py:84-108 | one exchange never moves the cursor backwards or past the input |
| `Protocol.ResetProgReadsNothing` | mysmartusb.py:90-91 | `R` reads nothing: the cursor is unchanged, there is no result and no error |
| `Protocol.TransactResyncs` | mysmartusb.py:99-108 | if the first envelope after the cursor starts at `k`, an enveloped command consumes through `k + 5` and is decided by the payload at `k + 2` alone |
| `Protocol.GarbageSkipped` | mysmartusb.py:99-101 | `F7`-free garbage before an envelope is discarded: exactly its length plus 5 bytes are consumed, and the payload is checked |
| `Protocol.EchoRoundTrip` | mysmartusb.py:104-108 | a correctly echoed command returns the one-byte sequence of the command after consuming 5 bytes |
| `Protocol.MismatchDetected` | mysmartusb.py:104-107 | for a command other than `i`, `R` and `v`, a wrong echo fails with "Invalid command return: XX", where XX is the payload |
| `Protocol.ModeQuery` | mysmartusb.py:70-71 | a mode query never moves the cursor backwards or past the input |
| `Protocol.ModeQueryIsTransact` | mysmartusb.py:70-71 | the mode query is the `i` exchange: it accepts every payload, returns it as the mode, and its only failure is a missing reply |
| `Protocol.SetModeRun` | mysmartusb.py:61-68 | `setMode` never moves the cursor backwards or past the input |
| `Protocol.SetModeAlreadySet` | mysmartusb.py:61-63 | when the first query reports the requested mode, only the `i` frame is written and the call succeeds |
| `Protocol.SetModeSwitches` | mysmartusb.py:64-68 | when the first query reports another mode, the switch command is echoed correctly and the verifying query gets a reply, the frames `i`, `m`, `i` are written and the call fails with "Failed to set mode" exactly when the verifying query reports another mode |
| `Protocol.SetModeFrames` | mysmartusb.py:61-68 | in every case the bytes written are the frames `i`, `i m` or `i m i`, so there is no further retry; `m` is sent only after a query reported a different mode |
| `Protocol.SetModeFailsAfterOneVerify` | mysmartusb.py:61-68 | on a stream read from its start that holds three back-to-back envelopes (a different mode, the echo of the requested mode `p`, `d` or `q`, then a different mode again), `setMode` fails with "Failed to set mode" after 3 frames and 15 consumed bytes |
| `Serial.Port.Write` | mysmartusb.py:88 | a write appends exactly its bytes to the trace and reads nothing |
| `Serial.Port.Flush` | mysmartusb.py:89 | a flush appends one `Flushed` event to the trace and reads nothing |
| `Serial.Port.Sleep` | mysmartusb.py:93 | `time.sleep` (250 ms here, 500 ms in `setMode`) appends one `Slept` event with its duration in milliseconds and reads nothing |
| `Serial.Port.Read` | mysmartusb.py:99-101 | a read of `n` bytes returns the next `n` input bytes and advances the cursor by `n`; when fewer remain it consumes the rest and reports that the read would block |
| `Serial.Port.InWaiting` | mysmartusb.py:94 | the buffered count is the number of input bytes not yet read |
| `Device.MySmartUsb.Slide` | mysmartusb.py:100-101 | one scan step drops the oldest window byte and appends the next input byte, advancing the cursor by one; it fails only when the input is exhausted, and writes nothing |
| `Device.MySmartUsb.Resync` | mysmartusb.py:99-101 | the loop stops on the first aligned window after the start, having read exactly through it, and no envelope starts anywhere before it; when the input runs out, no envelope exists after the start at all |
| `Device.MySmartUsb.ReadReply` | mysmartusb.py:99-108 | the sliding 5-byte window loop returns the result of the least-envelope description and stops right after that envelope, writing nothing |
| `Device.MySmartUsb.ReadVersion` | mysmartusb.py:92-98 | the trace gains the 250 ms delay and then one read of all unread input, and the slice between the `F7` markers is returned |
| `Device.MySmartUsb.SendCmd` | mysmartusb.py:84-108 | the frame is written and flushed before any read, nothing else is written, and result and cursor are those of `Transact`; for `R` nothing follows the flush, and for `v` only the 250 ms delay and one read of all unread input follow it |
| `Device.MySmartUsb.ResetBoard` | mysmartusb.py:52-53 | sends one `r` frame, flushed before any read and followed only by reads, and reports the echo check's outcome, dropping the echoed byte |
| `Device.MySmartUsb.ResetProg` | mysmartusb.py:55-56 | writes the `R` frame, flushes, and returns success without reading anything |
| `Device.MySmartUsb.Power` | mysmartusb.py:58-59 | sends `+` when switching on and `-` when switching off, flushed before any read and followed only by reads, and reports the echo check's outcome |
| `Device.MySmartUsb.GetMode` | mysmartusb.py:70-71 | sends one `i` frame, flushed before any read and followed only by reads, and returns whatever payload the first envelope carries |
| `Device.MySmartUsb.SetMode` | mysmartusb.py:61-68 | result, final cursor and written bytes are those of `SetModeRun`, so the lemmas about it hold of every call |
| `Device.MySmartUsb.GetVersion` | mysmartusb.py:73-78 | writes and flushes one `v` frame, waits 250 ms, reads all unread input once, and returns the ASCII decoding of the version slice or "Failed to read version string" |

## Left out

- Opening, configuring and flushing the serial port in the constructor, and `close()`: pyserial calls with no protocol content. `Device.MySmartUsb.constructor` takes a port that is already open (mysmartusb.py:46-50, 80-82).
- Exceptions raised by pyserial itself, such as a lost device: there is no model of a failing transport.
- Blocking for ever: a read that needs more bytes than the input holds ends the operation with `NoReply`, after consuming the rest of the input.
- The timing of `inWaiting()`: the bytes buffered for `v` are all input not yet read, so no reply bytes can arrive after the 250 ms delay.
- The debug output of `__sendCmd` (mysmartusb.py:86-87, 102-103): a print-only side channel. The `hexdump` it uses is modelled.
- `str2bool`, `usage` and `main` (mysmartusb.py:20-29, 110-183): command-line parsing, printing and exit codes.
- Commands as `bytes` objects of any length: a command is one byte, which is all the script ever passes. `getMode` returns that byte, not a one-byte `bytes`.
- `Device.MySmartUsb.SetMode`: its contract states the result, the final cursor and the bytes written. It does not say where the 500 ms delay falls among the trace events.
