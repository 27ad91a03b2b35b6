# libuwsc client core in Dafny

This project models the core of libuwsc, a small WebSocket client library
written in C. It covers three parts:

- **The connection logic of `src/uwsc.c`** (modules `Frame`, `Http` and
  `Client`):
  - `parse_frame` decodes the base framing of section 5.2 of RFC 6455 and
    refuses masked server frames;
  - `dispach_message` answers control frames;
  - the handshake branch of `__uwsc_notify_read` and `parse_header` check the
    server's opening-handshake response (section 4.1 of RFC 6455);
  - `uwsc_send` writes a masked client frame (section 5.3 of RFC 6455);
  - `uwsc_handshake` writes the upgrade request;
  - `uwsc_ping_cb` and `uwsc_set_ping_interval` drive the keep-alive timer;
  - `uwsc_error` marks the connection as failed.
- **The growable byte buffer of `src/buffer.c`** (class `ByteBuffer.Buffer`):
  `buffer_resize`, `buffer_init`, `buffer_free`, `buffer_grow`, `buffer_put`
  and `buffer_pull`.
- **The inline accessors of `src/buffer.h`**: length, size, headroom and
  tailroom; truncation; the persistent-size policy; and the typed
  put/pull/get operations.

How the model is built:

- **A connection is a value.** A `Client.Conn` holds the state `uwsc.c`
  touches:
  - the state (`Handshake` or `Message`) and the error code;
  - the stream's eof flag;
  - the bytes received (`rx`) with a count of those consumed, and the bytes
    written (`tx`);
  - the frame being assembled;
  - the ping bookkeeping;
  - a log of the `onopen` and `onmessage` callbacks.
- **Functions specify, the class executes.** Each entry point is first a
  function from the old connection to the new one. The class
  `Client.Client` holds the same fields and carries out the C code
  statement by statement. Each of its methods is proved to leave exactly
  the value its function computes (`Snap() == ReadLoop(old(Snap()), key)`
  and similar). The properties are then proved as lemmas about those
  functions.
- **The buffer is a class over an array.** `ByteBuffer.Buffer` keeps the
  `head`/`data`/`tail`/`end` pointers as offsets into an `array<bv8>`, and
  maintains the invariant head ≤ data ≤ tail ≤ end. Allocation failure is an
  input, `allocOk`.
- **C library calls become functions.** `strstr`, `strtok`, `strchr`,
  `atoi`, `strcasecmp`, `strlen` and `"%d"` are functions on byte
  sequences, written to match glibc's behaviour.
- **The received bytes end in a NUL.** Both streams are set up with
  `string_data` (`src/uwsc.c:532`, `src/uwsc.c:547`), so ustream writes a NUL
  after the bytes it has read. `Http.ResponseVerdict`, `Client.ReadStep` and
  `Client.Client.JudgeResponse` therefore read the handshake response as the
  C string `CStr(Unread(c))`.

## Behaviour worth knowing

- CLOSE frames are sent empty;
- the only size limit is `INT_MAX - 14` in `uwsc_send`;
- keep-alive is the ping timer;
- `uwsc_error` as written never returns: its CLOSE frame goes through
  `uwsc_send`, which calls `uwsc_error` again (see "## Findings",
  src/uwsc.c:52). The model uses the corrected `uwsc_error`, which writes
  one CLOSE frame and returns. The next two points hold for that corrected
  function only;
- with the recursion cut, a masked server frame writes two CLOSE frames: one
  from `parse_frame`'s call to `uwsc_error`, and one after the read loop
  ends with an error;
- with the recursion cut, a server CLOSE resets the error to 0, so the read
  loop goes on;
- the status is read with `atoi`, whose `(int)` conversion drops the high bits,
  so a status such as 4294967397 passes the test for 101.

## Versions

`src/uwsc.h` describes a later version of the client structure. The model
keeps the fields that `src/uwsc.c` actually reads and writes. The error codes
and opcodes are taken from `src/uwsc.h:50-58` and `src/uwsc.h:69-76`.

## Model

| member | source | states |
|---|---|---|
| Bytes.LittleEndianRoundTrip | src/buffer.h:139-173 | a value stored in n bytes in host order reads back as the same value |
| Bytes.StrLen | src/buffer.h:177 | strlen counts the bytes before the first NUL: none of them is NUL, and the byte after them is NUL unless the string ends there |
| ByteBuffer.CapacityIsLeast | src/buffer.c:37-41 | the capacity for a size holds at least that many bytes, is PAGE_SIZE·2^k, and is no larger than any PAGE_SIZE·2^k that also holds the size |
| ByteBuffer.PageRoundUp | src/buffer.c:37-41 | the loop that doubles from the page size stops at exactly the least such capacity |
| ByteBuffer.Reallocate | src/buffer.c:50-53 | realloc returns a fresh block of the new size whose first min(old, new) bytes are the old block's bytes |
| ByteBuffer.CopyInto | src/buffer.h:108-124 | memcpy/memset writes the source bytes at the target and keeps the live bytes before it |
| ByteBuffer.CopyOut | src/buffer.c:229-230 | memcpy out of the buffer copies exactly the n bytes at `data` to the front of `dest` and leaves the rest of `dest` as it was |
| ByteBuffer.Buffer.Length | src/buffer.h:63-82 | the length is the number of live bytes, and headroom + length + tailroom equals the block size |
| ByteBuffer.Buffer.Resize | src/buffer.c:34-66 | on success the block has the least page capacity, the data starts at the head and the live bytes are kept (clipped to the capacity), and 0 is returned; on failure -1 is returned, the block is unchanged and the live bytes are kept |
| ByteBuffer.Buffer.Compact | src/buffer.c:43-48 | the memmove moves the live bytes to the start of the block and keeps them unchanged |
| ByteBuffer.Buffer.Init | src/buffer.c:68-76 | every field is cleared; size 0 gives an empty buffer with no block and returns 0; otherwise the result and the block are those of buffer_resize |
| ByteBuffer.Buffer.Free | src/buffer.c:78-84 | with a block, every field is cleared; without one, nothing changes |
| ByteBuffer.Buffer.Grow | src/buffer.c:86-89 | on success the block has the least capacity for size + len, leaves at least len bytes of tailroom, and keeps the live bytes |
| ByteBuffer.Buffer.Put | src/buffer.c:100-113 | the block grows only when the room at the tail is short. The result is NULL exactly when growing fails, or when len is 0 and there is no block. Otherwise it is the old tail, the length grows by exactly len, and the old bytes are kept |
| ByteBuffer.Buffer.MakeRoom | src/buffer.c:104-108 | an empty window is rewound to the head; the block grows only when the tailroom is below len; the call succeeds exactly when there is room or the allocation succeeds |
| ByteBuffer.Buffer.Pull | src/buffer.c:223-234 | removes and returns exactly min(len, length) bytes from the front, copies them to a non-NULL `dest`, and leaves the tail in place |
| ByteBuffer.Buffer.SetPersistentSize | src/buffer.h:89-97 | stores the least page capacity that holds the given size |
| ByteBuffer.Buffer.CheckPersistentSize | src/buffer.h:99-104 | resizes to the persistent capacity only when persistent > 0, size > persistent and length < persistent; a failed resize leaves the block and its size as they were; otherwise nothing changes; the live bytes are always kept |
| ByteBuffer.Buffer.Truncate | src/buffer.h:202-208 | cuts the live bytes to their first len bytes when there are more than len, then shrinks the block to the persistent capacity when persistent > 0, size > persistent and len < persistent and the resize succeeds, and otherwise keeps the block size; with no more than len live bytes nothing changes |
| ByteBuffer.Buffer.Append | src/buffer.h:108-124 | filling the reserved bytes makes the contents the kept prefix followed by the source bytes |
| ByteBuffer.Buffer.PutZero | src/buffer.h:108-115 | appends exactly len zero bytes, or returns NULL and changes nothing |
| ByteBuffer.Buffer.PutData | src/buffer.h:117-124 | appends exactly the given bytes, or returns NULL and changes nothing |
| ByteBuffer.Buffer.PutWord | src/buffer.h:127-173 | returns 0 and appends the value's bytes in host order, which read back as the value; or returns -1 and changes nothing |
| ByteBuffer.Buffer.PutU8 | src/buffer.h:127-137 | returns 0 and appends the byte, or returns -1 and changes nothing |
| ByteBuffer.Buffer.PutU16 | src/buffer.h:139-149 | returns 0, the length grows by 2, the old bytes are kept and the new bytes hold the value; or returns -1 and nothing changes |
| ByteBuffer.Buffer.PutU32 | src/buffer.h:151-161 | returns 0, the length grows by 4, the old bytes are kept and the new bytes hold the value; or returns -1 and nothing changes |
| ByteBuffer.Buffer.PutU64 | src/buffer.h:163-173 | returns 0, the length grows by 8, the old bytes are kept and the new bytes hold the value; or returns -1 and nothing changes |
| ByteBuffer.Buffer.PutString | src/buffer.h:175-186 | appends the strlen(s) bytes before the NUL and no terminator; returns -1 and changes nothing exactly when buffer_put fails |
| ByteBuffer.Buffer.PullWord | src/buffer.h:213-259 | with fewer than width live bytes, returns 0 and changes nothing; otherwise consumes exactly width bytes from the front and returns their host-order value |
| ByteBuffer.Buffer.PullU8 | src/buffer.h:213-223 | with no live byte, returns 0 and changes nothing; otherwise returns the first byte and consumes it |
| ByteBuffer.Buffer.PullU16 | src/buffer.h:225-235 | with fewer than 2 live bytes, returns 0 and changes nothing; otherwise consumes exactly 2 bytes and returns their value |
| ByteBuffer.Buffer.PullU32 | src/buffer.h:237-247 | with fewer than 4 live bytes, returns 0 and changes nothing; otherwise consumes exactly 4 bytes and returns their value |
| ByteBuffer.Buffer.PullU64 | src/buffer.h:249-259 | with fewer than 8 live bytes, returns 0 and changes nothing; otherwise consumes exactly 8 bytes and returns their value |
| ByteBuffer.Buffer.GetWord | src/buffer.h:261-299 | never changes the buffer; returns the value of the width bytes at offset when all are live, and 0 otherwise |
| ByteBuffer.Buffer.GetU8 | src/buffer.h:261-269 | returns the byte at offset when it is live, and 0 otherwise |
| ByteBuffer.Buffer.GetU16 | src/buffer.h:271-279 | returns the two bytes at offset, read in host order, when both are live, and 0 otherwise |
| ByteBuffer.Buffer.GetU32 | src/buffer.h:281-289 | returns the value of the 4 bytes at offset when all are live, and 0 otherwise |
| ByteBuffer.Buffer.GetU64 | src/buffer.h:291-299 | returns the value of the 8 bytes at offset when all are live, and 0 otherwise |
| ByteBuffer.GetU16NegativeOffsetPassesGuard | src/buffer.h:275 | the guard as written accepts offset -1 with one live byte, although that read starts before the data |
| ByteBuffer.GetU32NegativeOffsetPassesGuard | src/buffer.h:285 | the guard of buffer_get_u32 as written accepts offset -1 with three live bytes, although that read starts before the data |
| ByteBuffer.GetU64NegativeOffsetPassesGuard | src/buffer.h:295 | the guard of buffer_get_u64 as written accepts offset -1 with seven live bytes, although that read starts before the data |
| Frame.DecodedFrameShape | src/uwsc.c:92-124 | a decoded frame has its mask bit clear, takes FIN and opcode from byte 0, and has a header of 2, 4 or 10 bytes chosen by the 7-bit length code; the 16-bit and 64-bit lengths stay within their widths, and the frame fits in the bytes at hand |
| Frame.DecodeIsPrefixStable | src/uwsc.c:89-124 | a frame that is decoded, or refused as masked, decodes the same whatever bytes follow it |
| Frame.TruncatedFrameIsIncomplete | src/uwsc.c:89-124 | every proper prefix of a whole frame is incomplete, so nothing is consumed until the frame is wholly buffered |
| Frame.EncodeHeader | src/uwsc.c:372-396 | the header is 6, 8 or 14 bytes for len < 126, len < 0x10000 and otherwise; its first byte is 0x80 \| op, the mask bit is set, and it ends with the masking key |
| Frame.Mask | src/uwsc.c:397-400 | masking keeps the payload length |
| Frame.MaskIsInvolution | src/uwsc.c:397-400 | masking twice with the same key restores the payload |
| Frame.NetworkBytes4Value | src/uwsc.c:389-392 | the four bytes written for a 32-bit length read back, in network order, as that length |
| Frame.LengthFieldRoundTrip | src/uwsc.c:375-394 | the length field uwsc_send writes decodes, under parse_frame's rules, to the payload length, with the header length before the key |
| Frame.ShortLengthRoundTrip | src/uwsc.c:375-377 | the 7-bit length form reads back as a 2-byte header and the length |
| Frame.MediumLengthRoundTrip | src/uwsc.c:378-382 | the 16-bit length form reads back as a 4-byte header and the length |
| Frame.LongLengthRoundTrip | src/uwsc.c:383-393 | the 64-bit length form reads back as a 10-byte header and the length |
| Frame.ClientFrameRoundTrip | src/uwsc.c:372-403 | a server that unmasks a frame uwsc_send wrote recovers FIN set, the opcode and exactly the payload |
| Frame.ServerFrameDecodes | src/uwsc.c:92-121 | parse_frame reads a server frame of any payload length below 2^64, in the shortest length form and all eight bytes of the 64-bit form, back as its FIN bit, opcode, header length and payload, whatever follows it |
| Frame.WrappedLengthPassesAsWritten | src/uwsc.c:123-124 | ten bytes announcing a 2^64 - 5 byte payload pass the completeness test as written, because the uint64_t sum wraps; the corrected DecodeFrame keeps waiting |
| Frame.FragmentIndexCorruptsMessage | src/uwsc.c:126-141 | reassembly as written turns the fragments "ab" and "cd" into "a", NUL, "cd" instead of "abcd" |
| Http.CStr | src/uwsc.c:224 | the C string a buffer holds is a NUL-free prefix of it |
| Http.FindFrom | src/uwsc.c:224 | strstr from a position finds an occurrence of the pattern with none before it, or reports that there is none |
| Http.Find | src/uwsc.c:224 | strstr returns the first occurrence of the pattern, or NULL exactly when there is none |
| Http.FindIsFirst | src/uwsc.c:224 | an occurrence with none before it is the one strstr returns |
| Http.FindIsPrefixStable | src/uwsc.c:224-226 | once the pattern is found, more bytes after the string do not change where it is found |
| Http.StrTok | src/uwsc.c:230-232 | strtok returns a non-empty token free of delimiters and resumes after it, or returns NULL when only delimiters remain |
| Http.StrTokFinds | src/uwsc.c:230-232 | a token preceded by delimiters and ended by a delimiter or by the end is exactly what strtok returns, and strtok resumes just after it |
| Http.IndexOf | src/uwsc.c:182 | strchr finds the first position of the byte, or reports that it is absent |
| Http.AtoiDecimal | src/uwsc.c:240 | atoi reads back every int that "%d" prints; a larger number within the range of long reads back as its (int) conversion, congruent modulo 2^32 |
| Http.StrTolDecimal | src/uwsc.c:240 | strtol reads back every number within the range of long that "%d" prints |
| Http.WrappedStatusAccepted | src/uwsc.c:240-244 | a status line whose number is 101 modulo 2^32, such as 4294967397, passes the status test, so a response with it and the three headers is accepted |
| Http.NatDigitsValue | src/uwsc.c:436 | the digits printed for a natural number read back as that number |
| Http.Decimal | src/uwsc.c:436 | "%d" prints a non-empty string with no NUL, CR or LF |
| Http.SkipSpaces | src/uwsc.c:188-189 | the loop skips exactly the run of spaces after the colon |
| Http.CutHeader | src/uwsc.c:182-189 | a line is cut at its first colon, the value's leading spaces skipped, and a line without a colon gives no field |
| Http.ColonRun | src/uwsc.c:177-185 | counts the leading lines that carry a colon: every one of them splits into a field, and the line after them, if any, does not |
| Http.HeaderFlagsFound | src/uwsc.c:177-199 | each flag is set at the end exactly when it was set at the start or some line before the first line without a colon carries its header (Upgrade with value websocket, Connection with value upgrade, any Sec-WebSocket-Accept, names and values in any case) |
| Http.HandshakeHeadersPresent | src/uwsc.c:177-206 | the header check passes exactly when, before the first line without a colon, one line is Upgrade: websocket, one is Connection: upgrade and one is named Sec-WebSocket-Accept |
| Http.ParseHeader | src/uwsc.c:170-209 | returns 0 exactly when the header lines, read up to the first line without a colon, include Upgrade: websocket and Connection: upgrade (names and values compared case-insensitively) and a Sec-WebSocket-Accept header; otherwise returns -1 |
| Http.ScanHeaderLines | src/uwsc.c:177-201 | on plain header lines, parse_header's strtok loop sees exactly the header lines one by one |
| Http.AcceptedThroughFirstBlankLine | src/uwsc.c:224-257 | the branch waits exactly when no blank line comes before the first NUL; an accepted response is consumed exactly through its first blank line |
| Http.VerdictIsPrefixStable | src/uwsc.c:224-257 | once a blank line is seen, the verdict does not depend on bytes arriving later |
| Http.StatusAndHeaders | src/uwsc.c:230-255 | the three strtok calls and parse_header split a plain status line and header lines field by field |
| Http.WellFormedResponseVerdict | src/uwsc.c:221-257 | a response of a status line, header lines and a blank line is accepted, consumed through the blank line, exactly when the version is HTTP/1.1, atoi reads the status as 101 and the three headers are present; otherwise it is invalid |
| Http.HandshakeRequestShape | src/uwsc.c:426-438 | the request is six CRLF-ended lines and a blank line, and its first blank line is its end; the Host line names the port exactly when it is not 80, in digits that atoi reads back |
| Client.Closed | src/uwsc.c:47-54 | the corrected uwsc_error, its recursion through uwsc_send cut: marks eof, records the error and appends one empty CLOSE frame |
| Client.SentFrameCarriesPayload | src/uwsc.c:353-410 | uwsc_send only appends to the output; the server reads back a final frame with exactly the opcode and payload; only a CLOSE also sets eof and error 0 |
| Client.DispatchKeepsInput | src/uwsc.c:56-79 | dispatch never touches the input stream, the state or the frame being assembled |
| Client.DispatchRules | src/uwsc.c:56-79 | a PING is answered by one PONG carrying its payload; a PONG clears the wait and re-arms the timer with the interval; a CLOSE closes with error 0; TEXT and BINARY are delivered once with nothing written; other opcodes change nothing |
| Client.Taken | src/uwsc.c:126-165 | assembling and dispatching a frame leaves the received bytes and the consumed count alone |
| Client.FrameStepConsumes | src/uwsc.c:81-168 | parse_frame returns true exactly for a whole frame and then consumes exactly its header and payload. Otherwise it consumes nothing: an incomplete frame changes nothing, and a masked one sets error 3 and eof |
| Client.ReadStep | src/uwsc.c:216-268 | one pass of the loop returns with nothing unread and with no change; it goes round only after consuming bytes; it breaks either with no change or with an error recorded |
| Client.ReadLoop | src/uwsc.c:211-274 | the read loop never changes the received bytes and never consumes more than it received |
| Client.ReadLoopDrains | src/uwsc.c:211-274 | the read loop only consumes; when it ends without an error, nothing is unread, or the handshake response still lacks its blank line, or the next frame is incomplete |
| Client.ChunkingIndependence | src/uwsc.c:211-274 | reading the server's bytes in two parts ends in the same state as reading them at once, when the first read ends without an error |
| Client.HandshakeOutcome | src/uwsc.c:221-262 | a well-formed response opens the connection exactly when it is valid: it is consumed through the blank line, onopen is called and the state becomes MESSAGE. Otherwise error 2 is recorded and the connection closed through uwsc_error, with nothing consumed |
| Client.LoopOfVerdict | src/uwsc.c:234-262 | an accepted response continues the loop in the opened state; an invalid one ends it with error 2 and a CLOSE frame |
| Client.RejectedHeadClosesAgain | src/uwsc.c:224-257 | in the model a rejected response leaves its head unconsumed with error 2, and the next read judges it again and writes one more CLOSE frame; the C code instead returns at once, as recorded under Left out |
| Client.ServerFrameStep | src/uwsc.c:126-166 | a server frame in the MESSAGE state is assembled, dispatched when final, and consumed to its last byte, and the loop goes on |
| Client.FramedWhole | src/uwsc.c:159-166 | a whole frame is consumed exactly through its payload after it is assembled and dispatched |
| Client.MessageStep | src/uwsc.c:263-265 | in the MESSAGE state, a whole frame at the head of the unread bytes is one pass that goes on |
| Client.PingAnswered | src/uwsc.c:66-68 | a PING is answered at once by a PONG frame with the same payload; nothing is delivered and the error and eof are unchanged |
| Client.MessageDelivered | src/uwsc.c:61-65 | a final TEXT or BINARY frame is delivered once, as received, and nothing is written |
| Client.FragmentsReassembled | src/uwsc.c:126-165 | a message in two fragments is delivered once, with the payloads joined and the first frame's opcode, and nothing is written |
| Client.PingIntervalSet | src/uwsc.c:456-464 | the timer is armed exactly when the interval is positive, for interval·1000 ms |
| Client.UnansweredPingCloses | src/uwsc.c:441-454 | two timer firings with no PONG between them write one PING frame and then one CLOSE frame, and end the connection with error 0 |
| Client.PongKeepsAlive | src/uwsc.c:69-72 | a PONG answering the PING clears the wait, so the next firing sends another PING instead of closing |
| Client.ErrorNeverReturns | src/uwsc.c:47-54 | uwsc_error as written, through uwsc_send's CLOSE, recurses without end at any depth |
| Client.ClosedWritesOneCloseFrame | src/uwsc.c:47-54 | the corrected uwsc_error appends exactly one frame, which a server reads as an empty CLOSE, and records the error |
| Client.RequestWrites | src/uwsc.c:426-438 | the printf calls, one after another, append exactly the request text |
| Client.Client.Receive | src/uwsc.c:217 | the stream buffers the bytes that arrive after those already received |
| Client.Client.WriteFrame | src/uwsc.c:372-403 | writes header and masked payload, masks the first len bytes of the caller's data in place and leaves the rest alone |
| Client.Client.BuildHeader | src/uwsc.c:372-394 | the 14-byte header buffer starts with exactly the header bytes of EncodeHeader |
| Client.Client.ShortHeader | src/uwsc.c:373-377 | stores the 6-byte header of a payload shorter than 126 bytes |
| Client.Client.MediumHeader | src/uwsc.c:378-382 | stores the 8-byte header with the 16-bit length |
| Client.Client.LongHeader | src/uwsc.c:383-393 | stores the 14-byte header with the 64-bit length |
| Client.Client.PutNet32 | src/uwsc.c:389-392 | stores the low four bytes of the length, most significant first, after the bytes already there |
| Client.Client.PutKey | src/uwsc.c:396 | copies the masking key after the bytes already there |
| Client.Client.MaskInPlace | src/uwsc.c:397-400 | XORs byte i with key[i % 4] in place for the first len bytes and leaves the rest unchanged |
| Client.Client.Send | src/uwsc.c:353-410 | a payload longer than INT_MAX - 14 is refused with -1 and nothing changes; otherwise 0 is returned, the payload is masked in place and the frame written, and a CLOSE also sets eof and error 0 |
| Client.Client.Error | src/uwsc.c:47-54 | the corrected uwsc_error: the connection becomes Closed(old, e), with eof, the error and one CLOSE frame |
| Client.Client.Dispatch | src/uwsc.c:56-79 | leaves the connection Dispatched computes and never touches the input |
| Client.Client.ParseFrame | src/uwsc.c:81-168 | the new state and result are those FrameStep specifies |
| Client.Client.TakeFrame | src/uwsc.c:126-166 | assembles the payload, dispatches a final frame and consumes the frame, as Framed specifies |
| Client.Client.Assemble | src/uwsc.c:126-157 | a continuation is appended while fragments are being collected; otherwise the frame's opcode and payload are taken, and collection starts unless the frame is final |
| Client.Client.ReadFrameHead | src/uwsc.c:89-124 | the header checks reach exactly the decision DecodeFrame specifies |
| Client.Client.Respond | src/uwsc.c:234-262 | waits, records error 2, or consumes the head and opens the connection, as HandshakeStep specifies |
| Client.Client.JudgeResponse | src/uwsc.c:224-228 | the verdict is the one ResponseVerdict specifies, and an accepted head is at least 4 bytes long and no longer than the unread bytes |
| Client.Client.CheckHead | src/uwsc.c:230-255 | the verdict is HeadVerdict: either invalid or accepted with the given length |
| Client.Client.NotifyRead | src/uwsc.c:211-274 | leaves the connection ReadLoop computes from the old one |
| Client.Client.Handshake | src/uwsc.c:417-439 | appends exactly the request text and changes nothing else |
| Client.Client.WriteRequest | src/uwsc.c:426-438 | the printf calls append the request text to the output |
| Client.Client.Ping | src/uwsc.c:412-415 | sends an empty PING frame |
| Client.Client.PingCb | src/uwsc.c:441-454 | leaves the connection PingFired computes: CLOSE if the last PING is unanswered; otherwise a PING, the wait flag set and the timer armed for one second |
| Client.Client.SetPingInterval | src/uwsc.c:456-464 | leaves the connection PingIntervalSet computes |

## Left out

- `src/ssl.c`, `src/ssl.h`, `src/lua/`, `src/log.c` and `src/log.h` are not part of this model. They are foreign calls into TLS libraries, the Lua C API, and syslog or stderr output.
- The example programs, `example/helloworld.c`, `example/example.c` and `example/echo_server.py`, are not part of this model. They are event-loop demos, and the Python script is a wrapper over another library.
- `get_nonce`, `b64_encode`, SHA-1 and `parse_url` are left out, because their bodies are not part of the repository's core. The masking key and the Sec-WebSocket-Key text are parameters.
- `uwsc_new_ssl`, `uwsc_free`, `__uwsc_notify_state` and the TLS notify callbacks are left out: they are socket, TLS and stream plumbing. So are `ustream_state_change` and the `onerror`/`onclose` callbacks it leads to.
- ustream I/O is modelled as sequences. Reads are the bytes received and writes the bytes written. Buffering and partial writes in ustream are not modelled.
- The callbacks `onopen` and `onmessage` are recorded as events in a log; application code is not modelled.
- The `uloop` timer is a field (`Armed(ms)` or `Disarmed`); time does not pass in the model. A firing is a call to `PingCb`.
- Out-of-memory paths are left out: `malloc` of the header in `uwsc_send` and the `realloc`/`malloc` of fragment reassembly. `UWSC_ERROR_NOMEM` is not defined in `src/uwsc.h`. Allocation failure is modelled for the buffer (`allocOk`).
- `buffer_put_fd`, `buffer_pull_to_fd`, `buffer_put_vprintf`, `buffer_put_printf` and `buffer_hexdump` are left out: they are read/write system calls and printf formatting.
- Client.Dispatched: for a PING whose payload exceeds INT_MAX - 14 bytes, uwsc_send refuses and no PONG is sent. This matches the code. The truncation of a 64-bit payload length to `int` on the way into `uwsc_send` is not modelled.
- Client.PingIntervalSet: `interval * 1000` is an unbounded integer; the overflow of the C `int` is not modelled.
- Http.Atoi: long is taken to be 64 bits, and the (int) conversion of strtol's result to wrap modulo 2^32, as gcc does on LP64 hosts. Both strtol's clamping and the conversion are modelled; errno is not.
- Bytes.LittleEndian: host order is taken to be little-endian. The typed accessors of `src/buffer.h` store through `uintN_t` pointers and so depend on the host.
- Http.StrTok: the NUL bytes that strtok writes over delimiters are not modelled. Neither is the NUL that `p[2] = 0` writes into the received buffer. After an accepted response both lie before the position the next call resumes at, and the model cuts the head at that position instead.
- Client.ReadStep: after an invalid response the C code breaks before `ustream_consume` (`src/uwsc.c:234-257`), so the NULs written by `p[2] = 0` and strtok stay in the received buffer. Every later read then finds no blank line at `src/uwsc.c:224-226` and returns at once, writing nothing. The model keeps the original bytes, judges the head again and writes another CLOSE frame (Client.RejectedHeadClosesAgain).
- Client.Client.Dispatch: for a PING, uwsc_send masks the frame's payload buffer in place. The model masks a fresh copy, because after dispatch the payload is not read again.
- Http.ParseHeader: the value of Sec-WebSocket-Accept is not checked, because the code does not check it (only its presence counts).
- The "Invalid state" branch of `__uwsc_notify_read` is not modelled: the state is only ever HANDSHAKE or MESSAGE.
- Client.Client.Send: a negative `len` is excluded by the precondition, because the model's payload is an array slice. The code would write a 6-byte header and no payload.
- ByteBuffer.Buffer.Resize: `data_len` is an `int` in the code; lengths above INT_MAX are not modelled.
- ByteBuffer.Buffer.Pull: `dest` must not alias the block (memcpy with overlapping areas is undefined) and must be large enough to hold the bytes copied.
- Client.ReadLoop: every frame written in one call uses the same masking key `key`, and so do Client.Finish and Client.Dispatched. uwsc_send draws a fresh key for each frame (`src/uwsc.c:370`). The frames written differ from the model's only in the key bytes and in the masked payload bytes.
- ByteBuffer.Buffer.Grow: `buffer_size(b) + len` is a `size_t` sum that wraps near SIZE_MAX (`src/buffer.c:88`); the model's sum is unbounded.
- ByteBuffer.Buffer.Put: the `size_t` wrap of `buffer_size(b) + len` when the block grows (`src/buffer.c:108-111`) is not modelled.
- ByteBuffer.PageRoundUp: for a size above 2^63, `new_size <<= 1` wraps to 0 in C and the loop never ends (`src/buffer.c:40-41`); the model's doubling is unbounded and ends.
- ByteBuffer.PAGE_SIZE: `getpagesize()` is fixed at 4096.
- Class methods such as `ShortHeader`, `MakeRoom` and `Assemble` split C functions into steps. They add no behaviour.

## Findings

| source | as written | input that shows it | evidently intended | confidence | as-written member | corrected member |
|---|---|---|---|---|---|---|
| src/uwsc.c:123 | the completeness test adds header and payload lengths as uint64_t, which wraps | the ten bytes 82 7F FF FF FF FF FF FF FF FB announce 2^64 - 5 payload bytes and pass the test | wait until header plus payload are buffered | not executed | Frame.WrappedLengthPassesAsWritten | Frame.TruncatedFrameIsIncomplete |
| src/uwsc.c:140 | reassembly zeroes byte `payloadlen - 1` of the whole message, indexed by the fragment's length (out of bounds for an empty fragment) | TEXT "ab" without FIN, then a final continuation "cd", is delivered as "a", NUL, "cd" | append the fragment to the message | not executed | Frame.FragmentIndexCorruptsMessage | Client.FragmentsReassembled |
| src/buffer.h:275 | the guard compares the length with `offset + 1` converted to size_t, so offset -1 passes | offset -1 with one live byte: buffer_get_u16 reads one byte before the data | read only when all bytes at offset are live | not executed | ByteBuffer.GetU16NegativeOffsetPassesGuard | ByteBuffer.Buffer.GetU16 |
| src/buffer.h:285 | buffer_get_u32 compares the length with `offset + 3` converted to size_t, so offset -1 passes | offset -1 with three live bytes: buffer_get_u32 reads one byte before the data | read only when all bytes at offset are live | not executed | ByteBuffer.GetU32NegativeOffsetPassesGuard | ByteBuffer.Buffer.GetU32 |
| src/buffer.h:295 | buffer_get_u64 compares the length with `offset + 7` converted to size_t, so offset -1 passes | offset -1 with seven live bytes: buffer_get_u64 reads one byte before the data | read only when all bytes at offset are live | not executed | ByteBuffer.GetU64NegativeOffsetPassesGuard | ByteBuffer.Buffer.GetU64 |
| src/uwsc.c:52 | uwsc_error sends a CLOSE through uwsc_send, which for a CLOSE calls uwsc_error again (line 407) | any call of uwsc_error, e.g. a masked server frame | write one CLOSE frame and record the error | not executed | Client.ErrorNeverReturns | Client.ClosedWritesOneCloseFrame |
