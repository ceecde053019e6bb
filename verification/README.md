# DDP receiver: a Dafny model

This project models the core of a small Distributed Display Protocol (DDP)
receiver written in Python for CircuitPython. A DDP sender sends UDP
datagrams. Each datagram has a 10-byte header, or a 14-byte header when the
TIME flag adds a timecode, followed by pixel data. The receiver keeps one
byte buffer per device id and writes each payload into its buffer at the
header's offset. A registered callback is told when a PUSH arrives. A QUERY
is answered with a status blob or an empty reply.

The model is in four modules, plus a module of worked examples:

- `Bytes` (`bytes.dfy`): bytes, `Option`, zero fill, big-endian fields, and
  the Python shifts and masks as Euclidean division and remainder.
- `Header` (`header.dfy`): `build_header` and `_parse_header`, with both
  round trips.
- `Receiver` (`receiver.dfy`): the `DDPReceiver` class as a pure state
  machine.
  - The state holds the buffers, their key order (Python's dict insertion
    order), the ids with a callback, the status blob and the capacity.
  - Processing one datagram yields the new state and a list of events. An
    event is either a reply datagram or a fired callback.
  - `poll` is a fold of that step over the queued datagrams.
  - `Valid` is the invariant every operation keeps: each buffer key appears
    once in the key order, and only ids with a buffer have a callback.
  - `Grows` states that packet processing never removes a key or shrinks a
    buffer, and keeps new growth within the capacity.
- `WebColors` (`colors.dfy`): `_colors_from_buffer` of the web view, which
  renders the display buffer as 30 `#rrggbb` strings.
- `Scenarios` (`scenarios.dfy`): concrete runs of the receiver:
  - two adjacent writes into one buffer;
  - an oversized first write;
  - a status query;
  - a pushed broadcast to two ids;
  - the web view's display buffer staying renderable.

Two behaviours of the code are easy to miss:

- `configure_output` with no callback keeps an earlier callback rather than
  replacing it (`ddp_receiver.py:113-114`).
- `configure_output` does not check the size against the capacity
  (`ddp_receiver.py:112`). `ConfigureOutput` may therefore shrink a buffer
  or make it longer than the capacity.

## Model

| member | source | states |
|---|---|---|
| Bytes.Be32Split | ddp_receiver.py:44-47 | Writing the four bytes `x >> 24 & 0xFF` … `x & 0xFF` and reading them back big-endian gives `x` modulo 2^32, for any integer, negative ones included |
| Bytes.Be16Split | ddp_receiver.py:48-49 | Writing `x >> 8 & 0xFF`, `x & 0xFF` and reading them back gives `x` modulo 2^16 |
| Bytes.Be32Bytes | ddp_receiver.py:63 | Reading a 4-byte big-endian field and splitting the value again gives back the same four bytes |
| Bytes.Be16Bytes | ddp_receiver.py:64 | Reading a 2-byte big-endian field and splitting it again gives back the same two bytes |
| Header.BuildHeader | ddp_receiver.py:38-50 | Always 10 bytes. Reserved bytes 1-2 are zero. Flags and id are masked to 8 bits, the offset field reads back as the offset mod 2^32 and the length field as the length mod 2^16 |
| Header.ParseHeader | ddp_receiver.py:53-71 | `None` exactly when the datagram is shorter than 10 bytes, has version bits other than 01, or has TIME set and is shorter than 14 bytes. Otherwise it returns the flags, the id, the big-endian offset and length, and either (TIME) header length 14 with the timecode from bytes 10-13 or header length 10 with no timecode. The header length never exceeds the datagram |
| Header.ParseBuild | ddp_receiver.py:38-71 | Decoding any encoded header succeeds exactly when the flags carry version 1 and TIME is clear, and then recovers the flags and id masked to 8 bits, the offset mod 2^32, the length mod 2^16, header length 10 and no timecode |
| Header.ParseBuildValid | ddp_receiver.py:38-71 | Decoding an encoded version-1 header without TIME, with an 8-bit id and a 32-bit offset, recovers flags, id and offset, the length mod 2^16, header length 10 and no timecode |
| Header.RoundTrip | tests.py:9-14 | Over the id, offset and length ranges the header test draws (8-bit id, 32-bit offset, 16-bit length), with flags of version 1 and TIME clear, decode(encode(fields)) returns exactly those fields. Other flags do not decode from a 10-byte header; `Header.ParseBuild` covers every flags value |
| Header.BuildParse | ddp_receiver.py:38-71 | The opposite direction: re-encoding the fields of any accepted datagram reproduces its first 10 bytes if and only if the reserved bytes 1-2 were zero |
| Header.ParseIgnoresPayload | ddp_receiver.py:53-71 | A 10-byte header without TIME decodes the same whatever bytes follow it |
| Header.ParseFramed | ddp_receiver.py:191-193 | A version-1 header without TIME that is followed by its payload decodes with the payload's length mod 2^16 as its length field and header length 10 |
| Receiver.Init | ddp_receiver.py:75-99 | A new receiver has no buffers, an empty key order and no callbacks, keeps the given status and capacity, and satisfies the invariant. With the defaults, `Init(DefaultMaxBufferSize, None)`, it is `DDPReceiver(sock)`: capacity 4096 and no status |
| Receiver.GrowsTransitive | ddp_receiver.py:164-176 | Two steps that each only grow buffers and keys together only grow them |
| Receiver.ConfigureOutput | ddp_receiver.py:106-114 | The id gets exactly `size` zero bytes, whether or not it had a buffer. Other ids keep their buffers. A new id joins the end of the key order and an existing id keeps its place. A callback is registered when one is given, and an earlier one survives when none is given. The invariant holds |
| Receiver.SetStatus | ddp_receiver.py:116-117 | The status becomes the given blob and nothing else changes |
| Receiver.WrittenAtUnique | ddp_receiver.py:176 | There is exactly one buffer that is the old buffer with `data` written at `offset` and zero fill beyond the old end |
| Receiver.Splice | ddp_receiver.py:176 | Slice assignment into a buffer already long enough puts `data` at `offset` and keeps every other byte |
| Receiver.WriteToBuffer | ddp_receiver.py:164-176 | With no buffer, a write ending beyond the capacity changes nothing, and any other write creates a buffer exactly as long as the write needs. With a buffer, a write that must grow past the capacity changes nothing. An accepted write leaves the buffer as long as the larger of its old length and the write's end, with `data` at the offset, the old bytes elsewhere and zeros in the growth. Other ids are untouched. The invariant holds and the state only grows |
| Receiver.HandlePush | ddp_receiver.py:178-182 | With a registered callback it fires once with the id's whole current buffer and the timecode; without one nothing happens |
| Receiver.SendEmptyReply | ddp_receiver.py:195-198 | One 10-byte datagram to the sender with zero reserved bytes that decodes as flags 0x45 (version 1, REPLY, PUSH), the queried id, offset 0, length 0 |
| Receiver.HandleQuery | ddp_receiver.py:184-193 | Exactly one datagram to the sender. It is 10 header bytes plus the answer, and the answer is the status blob for id 251 when a status is set, otherwise empty. Its first 10 bytes are exactly `build_header(0x45, id, 0, len(answer))`, and it decodes as flags 0x45, the queried id, offset 0 and length equal to the answer's length mod 2^16, and its bytes after the header are the answer |
| Receiver.Payload | ddp_receiver.py:152 | The payload slice is clamped to the datagram: it is min(length, bytes after the header) long, and byte i is datagram byte header_len + i |
| Receiver.Broadcast | ddp_receiver.py:153-158 | The loop over the key snapshot keeps the invariant, only grows the state, keeps the key order and the key set, and emits only callback events |
| Receiver.WriteOther | ddp_receiver.py:153-158 | A write to one id does not change what a later write of the same data produces in another id |
| Receiver.BroadcastKeeps | ddp_receiver.py:153-158 | Ids outside the snapshot keep their buffers through the broadcast |
| Receiver.BroadcastWrites | ddp_receiver.py:153-158 | Each id of the snapshot ends with exactly the buffer it would have had after the write alone |
| Receiver.BroadcastFires | ddp_receiver.py:153-158 | With PUSH, each snapshot id with a callback fires once, in key order, with its final buffer. Without PUSH nothing fires |
| Receiver.ProcessPacket | ddp_receiver.py:135-162 | Processing any datagram keeps the invariant and only grows the state |
| Receiver.Dispatch | ddp_receiver.py:135-162 | The dispatch, in order:<br>1. An invalid, REPLY or STORAGE datagram changes nothing and emits nothing.<br>2. A QUERY changes nothing and emits exactly the query reply to the sender.<br>3. A data datagram emits only callbacks.<br>4. For a single id it is that id's write followed, with PUSH, by that id's callback on the written buffer.<br>5. For id 255 every id that had a buffer gets its own write, no id is added, and with PUSH the callbacks fire in key order |
| Receiver.Received | ddp_receiver.py:123-130 | `recvfrom_into` keeps the first min(length, 2048) bytes of the datagram |
| Receiver.Deliver | ddp_receiver.py:130-131 | Processing one received datagram keeps the invariant |
| Receiver.Poll | ddp_receiver.py:119-133 | The drain keeps the invariant and takes at most the queued datagrams, processing no more than it takes |
| Receiver.PollStops | ddp_receiver.py:119-133 | `poll` processes exactly the datagrams before the first zero-length one. Every processed datagram was non-empty, and the next one, if any, is empty and is taken from the queue as well |
| Receiver.PollGrows | ddp_receiver.py:119-133 | A whole poll only grows buffers and keys, within the capacity, and keeps callbacks and status |
| Receiver.PollSplit | ddp_receiver.py:119-133 | Draining a queue in two polls, split before the first empty datagram, gives the same state, the same events in the same order and the same total counts as one poll |
| Receiver.PollPrefix | ddp_receiver.py:119-133 | A poll depends only on the datagrams it took: polling just those gives the same outcome, so the next poll starts right after them |
| Receiver.PushTraceFired | ddp_receiver.py:153-158 | Every callback a broadcast fires belongs to a snapshot id with a callback and carries that id's buffer and the header's timecode |
| Receiver.StepFired | ddp_receiver.py:135-162 | A callback fired while processing a datagram belongs to a registered id and receives that id's buffer as the datagram left it |
| Receiver.PollFired | ddp_receiver.py:119-133 | During a poll, a callback for an id that already had a buffer receives a buffer at least as long as that one |
| Receiver.ReplyFlagBits | ddp_receiver.py:191 | The reply flags 0x45 are version 1 with REPLY and PUSH set and QUERY, STORAGE and TIME clear |
| Receiver.RepliesIgnored | ddp_receiver.py:140-142 | Any reply this receiver sends, fed back into a receiver, changes nothing and emits nothing |
| WebColors.HexDigit | ddp_web_server.py:31 | Each hex digit is `0`-`9` or a lowercase `a`-`f` |
| WebColors.Color | ddp_web_server.py:31 | A pixel renders as 7 characters starting with `#` |
| WebColors.ColorRoundTrip | ddp_web_server.py:31 | A rendered pixel parses back to its red, green and blue bytes, so distinct pixels render differently |
| WebColors.ParseColorExact | ddp_web_server.py:31 | Every lowercase `#rrggbb` string is the rendering of the channels it parses to |
| WebColors.BlackIsZero | ddp_web_server.py:33 | The padding `#000000` is the rendering of an all-zero pixel |
| WebColors.Pixels | ddp_web_server.py:27-31 | Pixel i of the rendered prefix is the colour of bytes 3i, 3i+1, 3i+2 |
| WebColors.ColorsFromBuffer | ddp_web_server.py:24-34 | `None` (Python's `IndexError`) exactly when the buffer is shorter than 90 bytes and its length is not a multiple of 3. Otherwise the result has exactly 30 entries. Entry i is the colour of bytes 3i..3i+2 while those lie in the first 90 bytes, and `#000000` after |
| WebColors.OnlyPrefixRead | ddp_web_server.py:26 | Only the first 90 bytes are read: a longer buffer renders as its 90-byte prefix |
| WebColors.ColorsRecoverBytes | ddp_web_server.py:24-34 | Parsing the rendered list gives back each lit pixel's three bytes and zeros for the padding |
| Scenarios.SequentialWrites | ddp_receiver.py:164-176 | After `configure(5, 6)`, writing [1,2,3] at 0 and [4,5,6] at 3 leaves buffer 5 as [1,2,3,4,5,6] |
| Scenarios.OversizedFirstWrite | ddp_receiver.py:165-167 | With capacity 10, a first write of 3 bytes at offset 8 for id 7 creates no buffer and changes nothing |
| Scenarios.StatusQuery | ddp_receiver.py:184-193 | A status query with a 7-byte status emits one reply to the sender: header(0x45, 251, 0, 7) followed by the 7 bytes |
| Scenarios.BroadcastPushTwo | ddp_receiver.py:153-158 | A pushed broadcast over ids 1 and 2 (3-byte buffers, both with callbacks) fires callback 1 and then callback 2, each with its own freshly written buffer |
| Scenarios.BroadcastPush | ddp_receiver.py:106-114 | The same, starting from two `configure_output` calls on a new receiver |
| Scenarios.DisplayAlwaysRenders | ddp_web_server.py:217-224 | With a display buffer of at least 90 bytes before a poll, it still has at least 90 bytes afterwards and renders without the short-buffer error, and so does every buffer the display callback receives during the poll (the frames `_update_state_from_buffer` renders) |

## Left out

- Sockets are not modelled: the UDP socket, `bind`, `settimeout`, `sendto`, and `recvfrom_into`'s transport errors. The queue of pending datagrams is a parameter of `Poll`. Its end stands for `EAGAIN`, and other transport errors, which would propagate, are not modelled. The model assumes a socket layer that truncates a datagram longer than the 2048-byte receive buffer to its first 2048 bytes, as POSIX `recvfrom` does, and reads a zero-length datagram as `nbytes == 0`. A platform whose `recvfrom_into` raises `OSError` on an oversized datagram instead would see that error propagate out of `poll`; that case is not modelled.
- Callbacks are not run. A fired callback is an event carrying the id, the buffer at that moment and the timecode. The model therefore cannot show a callback that re-enters the receiver, for example by calling `configure_output` during a broadcast. The snapshot of keys the broadcast iterates over is modelled, though.
- Receiver.ConfigureOutput: `size` is a natural number, so the `ValueError` of `bytearray(size)` for a negative size is not modelled. The capacity is not checked, as in the code, so `Grows` is stated only for packet processing.
- Receiver.SendEmptyReply: the `bytes` object Python sends and the memoryview slices of the receive buffer are both plain byte sequences here.
- The web server's plumbing is not modelled: the HTTP handler, server-sent events, threads, locks and the sleep loop in `ddp_web_server.py`. Only `_colors_from_buffer` and the display configuration it relies on are modelled.
- `sketch.py` is the CircuitPython application that drives this receiver: it configures the display id with 90 bytes and a callback and loops on `poll`, feeding each frame to a NeoPixel strip. Its hardware and Wi-Fi calls (`board`, `neopixel`, `wifi`, `socketpool`) are not modelled.
- `ddp_sender_demo.py` imports a header builder that `ddp_receiver.py` does not define.
- `tests.py` compares `build_header` with an undefined `build_header_2`. Only its field ranges are used, in `Header.RoundTrip`.
- Integer widths: the offset and length are unbounded integers. Python's arbitrary-precision `>>` and `& 0xFF` are modelled as Euclidean division and remainder, which agree with Python for negative arguments too.
