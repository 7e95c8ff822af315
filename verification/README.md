# AVBORT sender: packetizer, ESP32 port locator, transmitter

A Dafny model of the sender side of AVBORT's image transfer (`ende.py`).
The sender cuts an image's bytes into packets, finds the serial port an
ESP32 is attached to by a handshake, and writes the packets to that port.

- **Packetizer** (`packetize_data`). The input is cut into consecutive
  slices of `packet_size` bytes, the last possibly shorter. Packet `k` is
  `k` as a 4-byte big-endian unsigned integer, then the 32-byte SHA-256
  digest of slice `k`, then the slice itself, with no delimiters.
  `PACKET_SIZE` is 1024.
- **Port locator** (`find_esp32_port`). The enumerated ports are probed in
  order. A port whose open, write or read raises is passed over. The first
  port whose reply line, after `bytes.strip()`, is `ESP32` wins, and no
  later port is probed.
- **Transmitter** (`transmit_data_to_esp32`). The image is packetized, the
  port is located, and the packets are written to it one by one in order.
  When no port is found no packet is written.

Modules, one file each:

- `types.dfy` (`Types`): bytes, the 32-byte `Digest`, the `Hasher` function type, `Option`, `Result`.
- `bigendian.dfy` (`BigEndian`): `struct.pack('>I')` and its inverse.
- `strip.dfy` (`AsciiStrip`): `bytes.lstrip`, `rstrip`, `strip` over ASCII whitespace.
- `chunking.dfy` (`Chunking`): Python slicing and the reference slicing `Chunks`.
- `frames.dfy` (`Frames`): the packet layout, its parser, and reassembly of payloads.
- `packetizer.dfy` (`Packetizer`): `packetize_data` and its properties.
- `locator.dfy` (`Locator`): `find_esp32_port` and its properties.
- `transmitter.dfy` (`Transmitter`): `transmit_data_to_esp32` as the trace of its writes.

SHA-256 is not implemented. Every function that builds packets takes the
hash as a parameter `hash: Hasher`, a function from bytes to 32 bytes.
Every property is proved for all such functions. So the model states only
that the digest field is the hash of the payload.

Frame parsing (`Frames.Parse`, `Frames.Reassemble`) is not in the source.
The sender never parses. Parsing is the inverse used to state what a
packet carries and that the packets reassemble to the image.

Edge cases of the code that the model keeps:

- `packetize_data` raises in two cases. `range(0, n, 0)` raises for a
  packet size of zero, even on empty input. `struct.pack('>I', k)` raises once a packet index
  reaches 2^32. Both are modelled as `Failure`. A negative packet size
  gives an empty range and so no packets.
- The transmitter tests `if not esp32_port`. A device name that is the
  empty string is therefore treated like `None`, and nothing is sent.
  `TransmitDataToEsp32` models this.

## Model

| member | source | states |
|---|---|---|
| BigEndian.Uint32ToBytes | ende.py:50 | the sequence-number field is exactly four bytes, defined only for values below 2^32 |
| BigEndian.Uint32ByteOrder | ende.py:50 | the most significant byte comes first: `0x01020304` is encoded as bytes 1, 2, 3, 4 |
| BigEndian.BytesToUint32 | ende.py:50 | any four bytes decode to a value below 2^32 |
| BigEndian.DecodeEncode | ende.py:50 | decoding the four header bytes of index `k` gives back `k` |
| BigEndian.EncodeDecode | ende.py:50 | every 4-byte field is the encoding of the value it decodes to |
| BigEndian.EncodingInjective | ende.py:50 | two indices get the same header bytes exactly when they are equal |
| AsciiStrip.StripLeftIsSuffix | ende.py:28 | `StripLeft` (`lstrip`) keeps a suffix, drops only whitespace, and the kept part does not start with whitespace |
| AsciiStrip.StripRightIsPrefix | ende.py:28 | `StripRight` (`rstrip`) keeps a prefix, drops only whitespace, and the kept part does not end with whitespace |
| AsciiStrip.StripIsSurrounded | ende.py:28 | `Strip` (`strip`, that is `rstrip` after `lstrip`) returns a result with no whitespace at either end that sits in the raw reply between runs of whitespace |
| AsciiStrip.StripLeftDropsSpaces | ende.py:28 | leading whitespace has no effect on `lstrip` |
| AsciiStrip.StripRightDropsSpaces | ende.py:28 | trailing whitespace has no effect on `rstrip` |
| AsciiStrip.StripSurrounded | ende.py:28 | any whitespace around a trimmed string is removed by `strip`, and nothing else is |
| AsciiStrip.StripIdempotent | ende.py:28 | stripping a stripped reply changes nothing |
| Chunking.PySlice | ende.py:48 | Python slicing `data[lo:hi]`: bounds inside the input give exactly that piece, bounds past the end are clipped, and a start at or past the end gives nothing |
| Chunking.ChunksCount | ende.py:47 | the input is cut into `ceil(len / size)` slices, so zero slices for empty input |
| Chunking.ChunksSizes | ende.py:47-48 | every slice but the last has exactly `size` bytes, and the last has 1 to `size` bytes |
| Chunking.ChunksFlatten | ende.py:47-48 | the slices concatenated in order are the input |
| Chunking.ChunkAt | ende.py:47-48 | slice `k` starts inside the input and is `data[k*size : k*size+size]` clipped at the end |
| Frames.Serialize | ende.py:50 | a packet is 36 bytes longer than its payload |
| Frames.Parse | ende.py:50 | splitting at offsets 4 and 36 succeeds exactly on packets of at least 36 bytes and yields fields of the fixed widths |
| Frames.ParseSerialize | ende.py:49-50 | splitting a packet at offsets 4 and 36 recovers its sequence number, digest and payload |
| Frames.SerializeParse | ende.py:49-50 | every byte string of at least 36 bytes is the packet of the frame it splits into |
| Frames.Reassemble | ende.py:47-51 | the payloads can be taken from a packet list exactly when no packet is shorter than the header |
| Frames.ReassembleFrames | ende.py:47-51 | reassembling serialized frames concatenates their payloads in list order |
| Packetizer.PacketAt | ende.py:48-50 | the packet for offset `k*size` is 36 bytes longer than its slice, bytes 0..4 decode to `k`, bytes 4..36 are the digest of the rest, and the rest is the slice `data[k*size:k*size+size]` |
| Packetizer.PacketAtIsChunk | ende.py:48-50 | the packet built at offset `k*size` holds index `k`, the digest of slice `k` and slice `k` of the reference slicing |
| Packetizer.PacketizeData | ende.py:44-52 | zero size raises, negative size gives no packets, more than 2^32 packets raises; otherwise packet `k` is index `k`, the digest of slice `k`, and slice `k` |
| Packetizer.EmptyInputNoPackets | ende.py:47 | an empty input yields an empty packet list for every non-zero size |
| Packetizer.PacketCount | ende.py:47 | the packet count is `ceil(len / size)` |
| Packetizer.PacketHeader | ende.py:49-50 | packet `k` is 36 bytes longer than its payload, bytes 0..4 are `k` big-endian and decode to `k`, and bytes 4..36 are the digest of the payload |
| Packetizer.PayloadSizes | ende.py:47-48 | every payload but the last has `size` bytes, and the last has 1 to `size` bytes |
| Packetizer.PacketizeReassembles | ende.py:47-51 | the payloads of the packets, concatenated in order, are exactly the input |
| Packetizer.OnePacketWhenSizeCoversInput | ende.py:47-50 | a size at least the input length gives exactly one packet, numbered 0 and carrying the whole input |
| Packetizer.Packetize2600 | ende.py:44-52 | 2600 bytes at the default size give packets 0, 1, 2 with payloads of 1024, 1024 and 552 bytes |
| Locator.FindEsp32Port | ende.py:21-35 | the result is the device of the first port that `Answers` (its reply line, after `strip`, is `ESP32`), no port is probed after it, and `None` comes only after every port failed |
| Locator.NotFoundIffNoAnswer | ende.py:24-35 | the scan returns `None` exactly when no port's stripped reply is `ESP32` |
| Locator.FirstAnswerWins | ende.py:24-31 | when port `i` is the first that answers, the result is its device after exactly `i + 1` probes |
| Locator.NonAnsweringPortSkipped | ende.py:25-34 | a port that raises or gives another reply does not change which device is found; it costs one probe only when the scan reaches it |
| Locator.ReplyWithWhitespaceAccepted | ende.py:28-29 | `ESP32` with any ASCII whitespace around it, such as the kept line terminator, is accepted |
| Locator.ScanExample | ende.py:21-35 | ports A (wrong reply), B (`ESP32\r\n`) and C (raises): B is returned after two probes, so C is never tried |
| Transmitter.TransmitDataToEsp32 | ende.py:54-66 | packetizing fails before any probe; packets are sent exactly when packetizing succeeds and the locator returns a non-empty device name, and then to that device; `None` or an empty name means nothing is sent |
| Transmitter.NoPortNoWrites | ende.py:59-62 | when no port answers the handshake, no packet is written to any bound port |
| Transmitter.WritesArePackets | ende.py:64-66 | when a device is found, the write trace is the packet list, one write per packet, in order |
| Transmitter.SentWritesCarryImage | ende.py:56-66 | what is written is `ceil(len / 1024)` packets numbered from 0, each with a digest that matches its payload, and together they carry the image |

## Left out

- `rpi.py`, the receiver. It is radio, GPIO, file and cloud I/O calling external libraries.
- `load_image_as_bytes`, which is PIL decoding and PNG re-encoding. The image bytes are an arbitrary input.
- SHA-256 itself. The hash is a parameter, and only its 32-byte length and the "digest of this payload" relation are used.
- The serial I/O details: `serial.Serial`, the 115200 baud rate, the one-second timeout, the 0.05 s pause between writes, and the `print` logging.
- The `hello` probe write and `readline` are folded into one probe outcome per port: an exception or the line read back.
- A port that never sends a line. `find_esp32_port` opens each port with no timeout, so `readline` blocks until a line arrives; the model assumes every probe ends with an exception or a line.
- The port left open on a match or on an exception. This is resource handling.
- Transmitter.TransmitDataToEsp32: assumes that opening the bound port and every write on it succeed; an exception there, which the source lets propagate, is not modelled.
- The module-level script call, and the configuration constants no function reads (`EXTENSIONS`, `CHECK_INTERVAL`, `BASE_DIR`, `LAST_RANGE_FILE`, `RAW_IMAGE_DIR`).
