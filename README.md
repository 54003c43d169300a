# USB VCP logger: frame synchronisation and decoding

A model in Dafny of the stream framer and decoder of `USB_VCP_Logger.py`, a
script that reads a serial (USB virtual COM port) byte stream carrying
16-byte frames

    DE AD | A (3 bytes) | B (3 bytes) | C (3 bytes) | D (3 bytes) | BE EF

and turns each accepted frame into four signed 20-bit channel values, kept in
four rolling lists of at most 2000 entries.

- `codec.dfy`, module `Codec`: `parse_packet`. Each 3-byte field is read big-endian
  and sign-extended the way the script does it: shift left 12, `struct.pack('I')`,
  `struct.unpack('i')`, shift right 12. Packing raises for a field whose top
  nibble is not zero, and the model returns `PackError` for that case.
  `Encode` is the inverse, used to state the round trip.
- `sync.dfy`, module `Sync`: `find_packet_start`, as a loop proved against the
  recursive function `FirstMarkerFrom`. It also decides which candidate window one
  loop iteration examines (`Locate`) and what is left of the buffer afterwards (`Resync`).
- `logger.dfy`, module `Logger`: class `VcpLogger` holds `buffer`, the four lists
  and `sampleCounter`. It also has a ghost `history` of every accepted sample.
  `Step(chunk)` is one pass of the `while True` body with plotting removed.
  `Run(chunks)` is that loop over a finite list of reads, ending early when
  decoding raises.

Three behaviours of the script differ from what the frame format suggests;
the model follows the script:
- A field's top nibble is meant to be don't-care, since only 20 bits carry the
  value. In the script, a nonzero top nibble makes `struct.pack` raise, and the
  exception ends the main loop. This is `PackError` / `Raised`; see
  `TopNibbleRaises`.
- A receiver would be expected to take every complete frame in the buffer at
  once. The script examines at most one candidate per loop iteration.
- The trim to the last 16 bytes fires both when there is no sync word and
  when the earliest sync word's frame is still incomplete (lines 116-118).
  `TrimKeepsMarker` shows that such a sync word always survives the trim.

## Model

| member | source | states |
|---|---|---|
| `Codec.Field` | USB_VCP_Logger.py:20-23 | the 24-bit big-endian field value is below 2^24 and its three bytes are recovered from it by division and remainder |
| `Codec.AsSigned32` | USB_VCP_Logger.py:26-29 | reading a packed unsigned 32-bit value as signed gives a value in [-2^31, 2^31) congruent to it modulo 2^32 |
| `Codec.ShiftRight12` | USB_VCP_Logger.py:26-29 | Python's `>> 12` rounds towards minus infinity: r*4096 <= x < r*4096 + 4096 |
| `Codec.SignExtend20` | USB_VCP_Logger.py:26-29 | the shift/pack/unpack/shift succeeds exactly when raw < 2^20; the result lies in [-524288, 524287], is congruent to raw modulo 2^20, and is negative exactly when bit 19 of raw is set |
| `Codec.ParsePacket` | USB_VCP_Logger.py:15-32 | rejected exactly when bytes 0-1 are not DE AD or bytes 14-15 are not BE EF; raises exactly when the frame is well delimited but some field is 2^20 or more; otherwise the four values are the signed 20-bit readings of bytes 2-4, 5-7, 8-10 and 11-13 |
| `Codec.RepresentsUnique` | USB_VCP_Logger.py:26-29 | a raw field has one signed 20-bit reading, so the contract of `ParsePacket` determines the decoded values |
| `Codec.SignBoundaries` | USB_VCP_Logger.py:26-29 | raw 0x00001 gives 1, 0x7FFFF gives 524287, 0x80000 gives -524288, 0xFFFFF gives -1, and 0x100000 raises |
| `Codec.TopNibbleRaises` | USB_VCP_Logger.py:26 | a well-delimited frame whose first field starts with byte 0x10 raises instead of decoding |
| `Codec.EncodeField` | USB_VCP_Logger.py:20-23 | the three bytes produced for v read back, big-endian, as v modulo 2^20 |
| `Codec.Encode` | USB_VCP_Logger.py:19 | an encoded frame is 16 bytes with the DE AD header and BE EF trailer |
| `Codec.EncodedFields` | USB_VCP_Logger.py:20-23 | the raw fields of an encoded frame are the channels modulo 2^20 |
| `Codec.FieldRoundTrip` | USB_VCP_Logger.py:26-29 | sign extension recovers every value in [-524288, 524287] from its low 20 bits |
| `Codec.RoundTrip` | USB_VCP_Logger.py:15-32 | every sample with all four channels in [-524288, 524287] is decoded back from its encoding |
| `Codec.EncodeFieldInverts` | USB_VCP_Logger.py:20-29 | a field with a zero top nibble is re-encoded from its decoded value byte for byte |
| `Codec.EncodeInverts` | USB_VCP_Logger.py:15-32 | a frame with the DE AD header, the BE EF trailer and four fields below 2^20 is accepted, and it is exactly the encoding of the sample decoded from it |
| `Sync.FirstMarkerFrom` | USB_VCP_Logger.py:39-42 | the result is -1 or an index at or after i where DE AD starts, and no DE AD starts before it |
| `Sync.FindPacketStart` | USB_VCP_Logger.py:34-42 | returns -1 exactly when no index holds DE AD; otherwise the smallest such index, which lies in [0, len-2] |
| `Sync.FirstMarkerIsLeast` | USB_VCP_Logger.py:39-41 | an index holding DE AD with none before it is the one the search returns |
| `Sync.Locate` | USB_VCP_Logger.py:70-72 | nothing is examined below 16 bytes; a candidate is the earliest DE AD with a whole frame behind it; otherwise no DE AD has a whole frame behind it |
| `Sync.Resync` | USB_VCP_Logger.py:114-118 | the buffer left after an iteration is a suffix of the appended buffer, and at most 16 bytes when the appended buffer had at most 32 |
| `Sync.TrimKeepsMarker` | USB_VCP_Logger.py:116-118 | trimming to the last 16 bytes keeps the earliest DE AD, shifted by the number of bytes dropped, and adds none when there was none |
| `Logger.Newest` | USB_VCP_Logger.py:88-92 | the newest n elements of s (Python's `s[-n:]` for n > 0; n is always 2000) number min(len, n) and form a suffix of s |
| `Logger.Push` | USB_VCP_Logger.py:80-92 | after appending x and capping at 2000, x is last, the length is min(len+1, 2000), and the rest is the newest part of the old list |
| `Logger.NewestSnoc` | USB_VCP_Logger.py:88-92 | capping before an append and capping after it give the same list |
| `Logger.PushKeepsNewest` | USB_VCP_Logger.py:80-92 | pushing a sample's channel onto the rolling list equals taking that channel of the newest 2000 accepted samples |
| `Logger.Classify` | USB_VCP_Logger.py:70-79 | a frame is decoded (accepted, discarded or raising) exactly when `Locate` finds a candidate |
| `Logger.AcceptedIsEncoded` | USB_VCP_Logger.py:72-79 | an accepted sample is exactly the one the candidate window encodes |
| `Logger.EmbeddedFrame` | USB_VCP_Logger.py:67-115 | after garbage holding no DE AD (it may end in DE), any encoded in-range frame is accepted with its own sample and only the bytes after it stay buffered (for example FF FF + frame {1,2,3,4} + AA) |
| `Logger.Feed` | USB_VCP_Logger.py:64-118 | the loop over a sequence of reads yields at most one outcome per read; only the last outcome can be a raise, and it is one whenever reads are left unprocessed |
| `Logger.FeedNext` | USB_VCP_Logger.py:64-118 | while the loop runs, one more read adds the outcome of classifying the appended buffer, and the buffer resyncs unless decoding raised |
| `Logger.FeedStops` | USB_VCP_Logger.py:64-118 | reads after a raise change neither the outcomes nor the buffer |
| `Logger.VcpLogger.constructor` | USB_VCP_Logger.py:59-61 | a new logger has an empty buffer, empty lists and counter zero |
| `Logger.VcpLogger.ListsBounded` | USB_VCP_Logger.py:87-92 | the four lists always have equal length, min(sample_counter, 2000) |
| `Logger.VcpLogger.Record` | USB_VCP_Logger.py:80-92 | an accepted sample's channels are pushed onto the four lists, the counter goes up by exactly 1, and the buffer is untouched |
| `Logger.VcpLogger.TakeCandidate` | USB_VCP_Logger.py:73-115 | the candidate is decoded; the buffer becomes old[s+16:] whether the frame was accepted or rejected; lists and counter change only on acceptance; on a raise the buffer is kept |
| `Logger.VcpLogger.Step` | USB_VCP_Logger.py:67-118 | one iteration: the outcome is `Classify` of the appended buffer; the buffer becomes `Resync` of it (or stays as appended when decoding raised) and stays within 16 bytes; an accepted sample is pushed onto each list and counted; nothing else changes |
| `Logger.VcpLogger.Advance` | USB_VCP_Logger.py:67-118 | performing read i while the loop runs extends the fold `Feed` by exactly that read's outcome and buffer, adds only its accepted sample to the history, and keeps the buffer within 16 bytes unless decoding raised |
| `Logger.VcpLogger.Run` | USB_VCP_Logger.py:64-118 | the outcomes and the final buffer are exactly those of `Feed` over the reads: each read is appended, classified and resynced in order, and the loop stops after the first raise; with reads of at most 16 bytes the buffer stays within 16 bytes until then; the history gains the accepted samples in stream order and the counter grows by their number |

## Left out

- Serial port open, read and close (lines 7, 67, 124): a read is an arbitrary chunk of at most 16 bytes, passed to `Step`.
- Plot setup and refresh every `update_interval` samples, axis limits, `plt.pause`/`plt.show` (lines 44-56, 94-112, 125-126): user interface only.
- `KeyboardInterrupt`, `finally` and the `print` on shutdown (lines 120-126). A raise in `struct.pack` is modelled as the `Raised` outcome, which ends `Run`. The port close that follows is not modelled.
- `struct`'s native byte order and size: pack and unpack use the same native 4-byte format, so they are modelled as an unsigned-to-signed 32-bit reinterpretation.
- The unused `csv` import (line 4).
- Codec.ParsePacket: requires a 16-byte window. Its only caller slices exactly 16 bytes (lines 72-74), so the IndexError a shorter packet could raise is not modelled.
- Codec.ParsePacket: does not say which of the four fields raised first. Any field of 2^20 or more gives `PackError`.
- Independence from chunk boundaries over a whole stream is not proved. `Step` describes each iteration exactly, `Run` is tied to the fold `Feed` of those iterations, and `EmbeddedFrame` covers a single frame behind noise.
