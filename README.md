# Go-Back-N file transfer over UDP — a Dafny model of the protocol engine

A client asks a server for a file with one request datagram. The server then
streams the file back in segments of at most 1024 bytes (MSS), numbered from
0, followed by one end-of-file packet. It uses the Go-Back-N sliding-window
protocol: at most `WINDOW_SIZE` packets are outstanding; a cumulative
acknowledgment moves the window; on a timeout the whole outstanding window is
sent again. The client accepts packets strictly in sequence order. It drops
anything malformed, truncated, corrupted or out of turn, and answers every
datagram with an acknowledgment of the next number it expects.

The model covers the three parts of the engine:

- **Wire codec** (`checksum.dfy`, module `Rfc1071`; `wire.dfy`, module `Wire`).
  - The Internet checksum is a loop over 16-bit big-endian words with an
    end-around carry (RFC 1071, section 1). It is written as a method and
    proved against a recursive definition.
  - The 13-byte header `seq:u32 ack:u32 flag:u8 data_len:u16 checksum:u16` is
    written by `Pack` and read by `Unpack`.
  - `Pack` fails exactly where the struct encoder raises: seq or ack outside
    the unsigned 32-bit range, or a payload of 2^16 bytes or more.
  - `Unpack` fails on fewer than 13 bytes and otherwise takes at most
    `data_len` payload bytes.
  - The code is identical in `Server/server.py` and `Client/client.py`. It is
    modelled once; the table cites the server's copy.
- **Sender** (`sender.dfy`, module `GoBackNSender`). The class `Sender` holds
  `base`, `nextseq` and `total = |segments| + 1`, with a ghost log `sent` of
  every sequence number transmitted. Its operations are:
  - `Start`;
  - `FillWindow`, the inner `while`;
  - `OnAck`;
  - `OnTimeout`, the retransmission `for`;
  - `Step`, one turn of the transfer loop.

  The datagram for number `n` is `Outgoing(segments, n)`.
- **Receiver** (`receiver.dfy`, module `GoBackNReceiver`).
  - `Classify` states the check cascade. The method `Receiver.OnDatagram`
    carries it out step by step and is proved against it.
  - The output file is the field `output`. Each acknowledgment sent is
    appended to `acks`; the datagram for `n` is `AckDatagram(n)`.
  - The ghost field `delivered` records the payload accepted for each
    sequence number.
- **Both sides together** (`transfer.dfy`, module `Transfer`). A channel may
  drop a datagram, deliver it, or invert one payload byte, as the server's
  fault injector does. Under that channel the receiver accepts only the
  sender's payloads, in sequence order. When it accepts the end-of-file
  packet, its output is the segments joined in order.

Behaviour of the code that the model keeps:

- A datagram shorter than 13 bytes that arrives at the server during a
  transfer makes `unpack_packet` raise. Only `socket.timeout` and
  `ConnectionResetError` are caught there (Server/server.py:217-241), so the
  exception leaves the server loop. `Step` reports this as outcome `Failed`.
- The server takes the ack number from any datagram that unpacks. It checks
  neither the flag nor the checksum, and does not compare the number with
  `nextseq`.
- The comment at Client/client.py:141 describes end of file as flag 1 with an
  empty payload. The code tests the flag alone, and the model follows the
  code.
- Only non-empty payloads are checked against the checksum. A checksum field
  of 0 does not imply an empty payload: `FF FF` also checksums to 0.
- Single-byte corruption is always caught. The checksum changes whenever one
  payload byte changes, so every corruption the fault injector can make is
  detected.

## Model

| member | source | states |
|---|---|---|
| `Rfc1071.Pad` | Server/server.py:42-43 | an odd-length payload gets exactly one 0x00 byte appended; an even-length one is unchanged |
| `Rfc1071.Word` | Server/server.py:46 | a big-endian word `(data[i] << 8) + data[i+1]` lies in [0, 0xFFFF] |
| `Rfc1071.FoldStep` | Server/server.py:48 | folding the sum of a 16-bit accumulator and a 16-bit word subtracts 0xFFFF exactly when the sum exceeds 0xFFFF, and the result stays at or below 0xFFFF |
| `Rfc1071.Acc` | Server/server.py:44-48 | the accumulator after every fold stays in [0, 0xFFFF] |
| `Rfc1071.ComplementOf` | Server/server.py:49 | `(~s) & 0xFFFF` equals 0xFFFF - s for an accumulator in [0, 0xFFFF] |
| `Rfc1071.Checksum` | Server/server.py:37-49 | the checksum lies in [0, 0xFFFF] and is 0xFFFF minus the folded sum of the zero-padded payload's words |
| `Rfc1071.InternetChecksum` | Server/server.py:37-49 | the loop returns `Checksum(data)`, in [0, 0xFFFF], keeping the accumulator at or below 0xFFFF after every fold |
| `Rfc1071.AccIsSumMod` | Server/server.py:44-48 | the folded accumulator equals the plain word sum modulo 0xFFFF and is zero exactly when the sum is |
| `Rfc1071.ChecksumZeroExtend` | Server/server.py:42-49 | appending a 0x00 byte never changes the checksum, so odd-length padding is neutral |
| `Rfc1071.ChecksumDetectsByteChange` | Server/server.py:37-49 | changing any single payload byte to a different value changes the checksum |
| `Rfc1071.NonEmptyZeroChecksum` | Server/server.py:37-49 | the non-empty payload `FF FF` has checksum 0 |
| `Wire.U16RoundTrip` | Server/server.py:59-70 | a 16-bit header field decodes to the value encoded |
| `Wire.U32RoundTrip` | Server/server.py:59-70 | a 32-bit big-endian header field decodes to the value encoded |
| `Wire.ChecksumField` | Server/server.py:57-58 | the checksum field is a 16-bit value, 0 for an empty payload and `Checksum(payload)` otherwise |
| `Wire.Header` | Server/server.py:59 | the encoded header is exactly 13 bytes |
| `Wire.Pack` | Server/server.py:51-60 | packing succeeds exactly when seq and ack fit in 32 bits and the payload in a 16-bit length; the result is 13 + len(payload) bytes ending with the payload |
| `Wire.Unpack` | Server/server.py:62-72 | fails exactly on fewer than 13 bytes; otherwise the payload is the min(data_len, len - 13) bytes after the header, not checked against data_len, and every field is within its width |
| `Wire.PackUnpack` | Server/server.py:51-72 | unpacking a packed datagram returns seq, ack, flag & 0xFF, len(payload), the checksum field and the payload |
| `GoBackNSender.Range` | Server/server.py:228 | `range(lo, hi)`: hi - lo numbers (none when hi <= lo), the k-th being lo + k, so strictly ascending |
| `GoBackNSender.OutgoingFields` | Server/server.py:204-211 | the packet for seq n encodes and reads back as seq n, ack 0, flag 0 with segment n for n < len(segments), flag 1 with an empty payload for n = len(segments) |
| `GoBackNSender.Sender.Start` | Server/server.py:182-194 | a session starts with base = nextseq = 0, total = len(segments) + 1 and nothing sent |
| `GoBackNSender.Sender.FillWindow` | Server/server.py:204-214 | sends nextseq, nextseq + 1, … in ascending order; stops when nextseq = total or nextseq - base reaches the window; keeps base <= nextseq <= total and nextseq - base <= window; base unchanged |
| `GoBackNSender.Sender.OnAck` | Server/server.py:219-224 | base becomes a exactly when a > base, and stays otherwise; nextseq and the log are unchanged; the window invariant survives when a <= nextseq |
| `GoBackNSender.Sender.OnTimeout` | Server/server.py:225-237 | sends exactly base, …, nextseq - 1 again, in ascending order; base and nextseq unchanged |
| `GoBackNSender.Sender.Step` | Server/server.py:200-241 | one loop turn: fill the window, then a timeout retransmits the window; an arriving datagram moves base to its ack number when larger; a short datagram ends the server (`Failed`); a reset aborts the session |
| `GoBackNReceiver.Classify` | Client/client.py:117-147 | malformed exactly when shorter than 13 bytes; a length mismatch exactly when data_len differs from the payload bytes present; a checksum mismatch exactly when a non-empty payload's checksum differs from the header's, never for an empty payload; an accepted datagram has the expected seq, a matching length and checksum, its payload is the bytes after the header, and it ends the stream exactly when its flag is 1; an out-of-order one unpacks with another seq |
| `GoBackNReceiver.AckFields` | Client/client.py:60-66 | the ack datagram for n reads back as ack n, seq n - 1 (0 when n = 0), flag 1, data_len 0, checksum 0, empty payload |
| `GoBackNReceiver.RequestFields` | Client/client.py:85 | the request reads back as seq 0, ack 0, flag 0 with the name as payload |
| `GoBackNReceiver.IntactAccepted` | Client/client.py:117-147 | an unaltered datagram from `pack_packet` passes the length and checksum checks: accepted if its seq is expected, otherwise out of order |
| `GoBackNReceiver.AlteredPayloadDropped` | Client/client.py:122-127 | a packed datagram with one payload byte altered is always dropped as a checksum mismatch |
| `GoBackNReceiver.Receiver.Start` | Client/client.py:90-94 | the receiver starts expecting 0, with no EOF, no output and no ack sent |
| `GoBackNReceiver.Receiver.OnDatagram` | Client/client.py:110-147 | on acceptance: payload appended, next_expected + 1, ack of the new value, EOF decided by the flag alone; on every drop or out-of-order packet: state unchanged, ack of the current next_expected; output stays the concatenation of accepted payloads |
| `GoBackNReceiver.Receiver.OnIdle` | Client/client.py:102-108 | a receive timeout sends the ack for the unchanged next_expected again |
| `Transfer.Stream` | Server/server.py:183 | a session has len(segments) + 1 packets, payload n being segment n and the last one empty |
| `Transfer.IntactVerdict` | Client/client.py:117-147 | an intact sender packet is accepted exactly when it is the expected one, with its segment, and ends the stream exactly when it is the EOF packet |
| `Transfer.InvertedVerdict` | Client/client.py:122-127 | a sender packet with one payload byte inverted in transit is dropped as a checksum mismatch |
| `Transfer.ChannelVerdict` | Client/client.py:110-147 | the receiver's verdict on any sender packet that the channel delivers: mismatch if a payload byte was inverted, else in order or out of order by its number |
| `Transfer.InOrderDelivery` | Client/client.py:129-143 | if the accepted payloads are the first next_expected packets of the stream, after any arrival they are still a prefix, one longer exactly on acceptance, with EOF seen exactly at the last packet |
| `Transfer.CompleteOutput` | Client/client.py:130-143 | the empty end-of-file payload adds nothing: the join of the whole stream equals the join of the segments |
| `Transfer.Deliver` | Client/client.py:90-147 | over any run of session packets, each intact or with a payload byte inverted, in any order and any number of times: the accepted payloads are always the first packets of the stream, EOF is seen exactly after all of them, every ack sent encodes, and once EOF is seen the output is the segments joined in order |

## Left out

- Sockets and timers are not modelled. This covers `recvfrom`, `sendto`, `settimeout`, `RTO_SEC`, the one-second client timeout and `ConnectionResetError`. An arrival, a timeout or a reset is an explicit method call or `Event` value.
- The fault injector's randomness is not modelled: `maybe_drop`, `maybe_corrupt`, `sendto_maybe` and `LOSS_PCT`/`CORRUPT_PCT`. What the channel does to a datagram is a parameter (`Transfer.Transit`); a drop is a datagram that never reaches `OnDatagram`.
- Splitting the file into chunks (`load_file_chunks`) and writing the output file are file I/O. The segments are an input. `Segmented` is an assumption on that input, not a guarantee of the reader: each chunk is at most MSS bytes, which the reader ensures, and there are at most 2^32 - 2 chunks, which it does not.
- 32-bit overflow of sequence and acknowledgment numbers is not modelled. With 2^32 - 1 or more segments the struct encoder raises: the server on a packet number of 2^32 or more (Server/server.py:211), the client on the ack of 2^32 after the end-of-file packet (Client/client.py:65, 139). `Sender` and `Receiver` keep counting in unbounded numbers there and log those numbers; `Segmented` excludes such sessions from the lemmas about a whole transfer.
- The server's request phase is library string and filesystem work: decoding the name as UTF-8 and stripping it, and the empty-name and file-existence checks (Server/server.py:161-179). The request datagram itself is modelled (`RequestDatagram`).
- Process start-up, argument and environment parsing, `print` logging and elapsed-time reporting are not modelled.
- The window size is a natural-number parameter of `Sender.Start`. A negative `WINDOW_SIZE` is not modelled.
- Bytes are integers in [0, 255] rather than Python `bytes` objects.
- The sender's `sent` log records sequence numbers, not bytes; the datagram sent for number n is `Outgoing(segments, n)`.
- Liveness is not modelled: termination under probabilistic loss, and progress of the whole transfer. Safety is proved per step instead.
- Whole runs are modelled on the receiver side only (`Transfer.Deliver`); the arrivals are an input rather than produced by a running `Sender`.
- The window invariant in the server is proved for acknowledgments no larger than `nextseq`. The code does not enforce this bound; a well-behaved client never exceeds it, and no lemma connects the two sides' counters.
