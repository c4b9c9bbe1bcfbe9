# stm.js in Dafny: transport-stream framing, HLS playlists and chunk scheduling

stm.js is a small HTTP server that streams a local media file to a player as
HTTP Live Streaming (RFC 8216). It cuts the file into 5-second MPEG-2
transport-stream chunks, encodes each one with ffmpeg, and serves them. This
project models the server's core and proves properties of the model:

- `mpeg2ts.dfy` (module `Mpeg2ts`) covers the transport-stream stage.
  - `Packetizer` cuts an arbitrarily chunked byte stream into 188-byte packets.
  - `TimeBasedChunkifier` groups packets into chunks. It cuts a chunk each
    time the Program Clock Reference (PCR, ISO/IEC 13818-1, sections
    2.4.3.4-2.4.3.5) passes the next boundary, and `Flush` emits what is
    left. Clock times are compared in whole 27 MHz ticks.
- `playlist.dfy` (module `Playlist`) covers chunk file names, the master
  playlist (one variant per rate, highest bandwidth first) and the per-rate
  media playlist (section 4.3 of RFC 8216).
- `uri.dfy` (module `Uri`) is `encodeURIComponent`, which the playlists apply
  to the session cookie, and `decodeURIComponent`, with which the session
  route reads it back.
- `session.dfy` (module `Session`) covers the sessions.
  - It turns a file's path into a cookie and keeps the registry of sessions.
  - It decides what `kick` does for a requested chunk, and applies the rule
    that encodes up to five chunks ahead of the player.
  - It decides what the encoder's exit status means.
- `util.dfy` (module `Util`) holds `Option`, concatenation of sequences, and
  decimal text, with its round trip.

Deliberate modelling choices:

- A PCR of (hi, lo) is hi·300 + lo ticks, and a boundary of t seconds is
  t·27000000 ticks. `SecondsVersusTicks` proves that this tick comparison is
  the comparison `hi/90000 + lo/27000000 > t`, read over exact rationals.
- `DecodePcr` reads `hi` as the unsigned low 32 bits of the PCR base, and the
  chunkifier cuts on that value (`CutsChunk`). The source's `pcr_hi` is a
  signed 32-bit value. `PcrHiAsWritten` and `CutsChunkAsWritten` model the
  source's reading. `CutTestsAgree` proves that the two tests agree while
  those bits are below 2^31, and that the source's test never cuts above
  that (see Findings).
- The packets given to `WritePacket` have at least 12 bytes. The packetizer
  only ever produces 188-byte packets.
- `pcr_offset` is an integer on the chunkifier, with 0 meaning unset.
  - Where the shifted PCR does not fit 32 bits, `writeUInt32BE` throws. The
    model returns `OffsetOutOfRange` there, after the packet has been stored.
- Three inputs stand in for things the model does not run:
  - The duration the metadata probe reports is a value given when a session
    is created.
  - The chunk files in a session's directory are a set, `onDisk`. A new
    session starts from the chunk files already in its directory.
  - An encoder run ends with an `ExitStatus` that is passed in.
- When the continuation of a kick clears the encode in flight, the source
  compares chunk paths. The model compares chunk names, and
  `ChunkNameInjective` turns that into equality of (rate, index).

Further facts about the code that the model keeps:

- The time origin is zero: the first boundary is `chunk_seconds` itself
  (mpeg2ts.js:27), whatever the first PCR of the stream is.
- The PCR extension is masked to 6 bits (mpeg2ts.js:44), where ISO/IEC
  13818-1 has 9.
- Sessions are never evicted (stm.js:202-204).
- A failed encode stays as `encoding`. The next request for the same chunk
  gets the same rejected promise back (stm.js:223-226).

## Model

| member | source | states |
|---|---|---|
| Mpeg2ts.Packetizer.constructor | mpeg2ts.js:9-12 | A new packetizer holds no bytes. |
| Mpeg2ts.Packetizer.Write | mpeg2ts.js:15-21 | The packets emitted are exactly those cut from the old `partial` followed by `data`. The new `partial` is what remains, at most 188 bytes. The packets concatenated, followed by the new `partial`, equal the old `partial` followed by `data`. An empty write emits nothing and changes nothing. |
| Mpeg2ts.Frames | mpeg2ts.js:17-18 | Every packet cut from a buffer is exactly 188 bytes long. |
| Mpeg2ts.Carry | mpeg2ts.js:17-19 | At most 188 bytes are kept back, and some are kept whenever the buffer was not empty. |
| Mpeg2ts.FramesConserve | mpeg2ts.js:16-19 | The packets, concatenated in order and followed by the kept bytes, are the buffer: no byte is dropped, duplicated or reordered. |
| Mpeg2ts.FramesCount | mpeg2ts.js:17 | A non-empty buffer of n bytes yields (n-1) div 188 packets and keeps the rest. |
| Mpeg2ts.FramesAt | mpeg2ts.js:18-19 | Packet i is bytes 188·i up to 188·(i+1) of the buffer: packets are sliced from the front, in order. |
| Mpeg2ts.ExactPacketHeldBack | mpeg2ts.js:17 | Because the loop test is a strict `>`, a buffer whose length is a multiple of 188 keeps its last whole packet back. |
| Mpeg2ts.FramesSplit | mpeg2ts.js:15-20 | Writing `a` and then `d` emits the same packets, and keeps the same bytes, as writing `a` followed by `d` at once. |
| Mpeg2ts.ReadUInt16BE | mpeg2ts.js:41 | The big-endian 16-bit field read is below 2^16. |
| Mpeg2ts.ReadUInt32BE | mpeg2ts.js:40 | The big-endian 32-bit field read is below 2^32. |
| Mpeg2ts.WriteUInt32BE | mpeg2ts.js:49 | Writing the 32-bit field keeps the length and every byte outside the field. |
| Mpeg2ts.WriteReadUInt32BE | mpeg2ts.js:49 | Reading the field back gives the value written. |
| Mpeg2ts.HasPcr | mpeg2ts.js:38-39 | A packet carries a PCR exactly when the adaptation-field flag (0x20 of byte 3) and the PCR flag (0x10 of byte 5) are both set. |
| Mpeg2ts.DecodePcr | mpeg2ts.js:40-44 | The decoded `hi` is below 2^32 and `lo` below 64. |
| Mpeg2ts.PcrMatchesStandard | mpeg2ts.js:40-44 | Against the standard's 33-bit base and 9-bit extension: `hi` is the base without its top bit, the dropped bit is `pcr_reallyhi`, and `lo` is the extension's low 6 bits. |
| Mpeg2ts.SecondsVersusTicks | mpeg2ts.js:45-51 | `hi/90000 + lo/27000000 > t` holds exactly when hi·300 + lo > t·27000000. |
| Mpeg2ts.CutsChunk | mpeg2ts.js:45-51 | A packet cuts a chunk exactly when it carries a PCR and `hi/90000 + lo/27000000` of its decoded PCR exceeds the boundary, read over exact rationals. |
| Mpeg2ts.WithPcrOffset | mpeg2ts.js:48-49 | Without a PCR, or with no offset, the packet is unchanged. With both, a packet comes back exactly when the old 32-bit field at byte 6 plus the offset is in 0..2^32-1. That packet reads back the sum there and keeps every other byte. |
| Mpeg2ts.TimeBasedChunkifier.constructor | mpeg2ts.js:23-28 | It starts with no packets, no offset, and the first boundary at `chunk_seconds` (a zero time origin). |
| Mpeg2ts.TimeBasedChunkifier.WritePacket | mpeg2ts.js:32-57 | Every packet is stored, rewritten when the offset applies. When the PCR passes the boundary, the emitted chunk is the earlier packets followed by this one, the store is emptied and the boundary moves up by exactly `chunk_seconds`. Otherwise nothing is emitted and the boundary stays, and a packet without both flags never emits. The invariant that delivered packets followed by stored packets equal all packets written is kept. |
| Mpeg2ts.TimeBasedChunkifier.Flush | mpeg2ts.js:59-64 | It emits the stored packets exactly when there are some, then stores none, so a second flush emits nothing. |
| Mpeg2ts.ToInt32 | mpeg2ts.js:43 | The result of a JavaScript bitwise operator: a value in -2^31..2^31-1 that is congruent to its 32-bit pattern modulo 2^32. |
| Mpeg2ts.PcrHiAsWritten | mpeg2ts.js:43 | The source's `pcr_hi` is the decoded `hi` while that is below 2^31, and `hi` - 2^32 from there on. |
| Mpeg2ts.CutsChunkAsWritten | mpeg2ts.js:43-51 | The cut test as written: a PCR whose signed `pcr_hi`·300 + `pcr_lo` ticks exceed the boundary. |
| Mpeg2ts.CutTestsAgree | mpeg2ts.js:43-51 | While the decoded `hi` is below 2^31 the test as written and the corrected test agree. From 2^31 on, the test as written never cuts a chunk. |
| Mpeg2ts.NeverResumes | mpeg2ts.js:43-54 | The signed time the source reads never exceeds 2^31/90000 s (about 23860.9 s). From a boundary of 23861 s on, the test as written never cuts a chunk, whatever PCR follows. |
| Mpeg2ts.SignedShiftCounterexample | mpeg2ts.js:42-45 | For a PCR base of 2^31, the source's signed shift gives `pcr_hi` = -2^31. The test as written does not cut at the 5-second boundary, where the corrected test on the base does. |
| Util.Decimal | stm.js:207 | The decimal text of a number is non-empty, all digits, and has no leading zero. |
| Util.DecimalRoundTrip | stm.js:109 | Reading the digits as a number (`m[4]-0`) gives back the number that was written. |
| Util.DecimalInjective | stm.js:207 | Different numbers have different decimal texts. |
| Uri.Utf8 | stm.js:307 | The UTF-8 encoding of a character is 1 to 4 bytes, each below 256. Its length is set by the code range: 1 below 0x80, 2 below 0x800, 3 below 0x10000, else 4. A one-byte encoding is the code itself. Lead bytes of longer ones are in 0xC2..0xDF, 0xE0..0xEF and 0xF0..0xF4, continuation bytes are in 0x80..0xBF, and the payload bits read back as the code. |
| Uri.PercentByte | stm.js:307 | An escaped byte is '%' and two upper-case hex digits whose value, high digit first, is the byte. |
| Uri.EncodeChar | stm.js:307 | An unreserved character encodes to itself. Any other character encodes to '%' and then three characters per UTF-8 byte. Every output character is unreserved or '%'. |
| Uri.EncodeUriComponent | stm.js:307 | Each input character becomes 1 to 12 output characters. |
| Uri.EncodedIsSafe | stm.js:307 | Every character of an encoded cookie is unreserved or '%'. In particular there is no '/', so the cookie stays one path segment of the URI. |
| Uri.EncodeUnreservedIdentity | stm.js:307 | A string of unreserved characters encodes to itself. |
| Uri.EncodeAppend | stm.js:307 | Encoding a concatenation is the concatenation of the encodings. |
| Uri.PercentDecode | stm.js:107 | `decodeURIComponent`, as the UTF-8 bytes of the string it returns: a text without '%' decodes to its own UTF-8 bytes. |
| Uri.DecodePercentBytes | stm.js:107 | Escaped bytes decode back to those bytes, whatever text follows them. |
| Uri.EncodeDecodeRoundTrip | stm.js:107 | Decoding the encoding of a string gives the string's UTF-8 bytes. |
| Uri.Utf8LeadLength | stm.js:107 | The lead byte of a UTF-8 encoding gives its length. |
| Uri.Utf8Injective | stm.js:107 | Two characters with the same UTF-8 bytes are the same character. |
| Uri.Utf8StringInjective | stm.js:107 | The UTF-8 bytes of a string determine the string. |
| Uri.DecodeGivesBack | stm.js:107 | The only string the session route's `decodeURIComponent` can return for a cookie that a playlist encoded (stm.js:307, 319) is that cookie. |
| Uri.EncodeUriComponentInjective | stm.js:307 | Different cookies have different encodings. |
| Playlist.LastIndexOf | stm.js:106 | The result is a position of the character with no later occurrence after it, or none when the character does not occur. |
| Playlist.LastIndexOfAppend | stm.js:106 | The last occurrence of `c` in x·c·y, where y holds no `c`, is at the position just after x. |
| Playlist.ChunkName | stm.js:207 | `chunkname(rate, n)` is the rate, then '-', then the decimal text of n, then ".ts". |
| Playlist.ParseChunkName | stm.js:106-109 | A name that parses has the form rate, '-', digits with no '-', ".ts". The digits read as the index. |
| Playlist.ParseChunkNameComplete | stm.js:106-109 | Conversely, the route reads every name of the form rate, '-', one or more digits, ".ts", with the digits' value as the index. |
| Playlist.LeadingZerosRead | stm.js:106-109 | Leading zeros are accepted: "high-007.ts" is chunk 7 at "high". |
| Playlist.ChunkNameRoundTrip | stm.js:106-110 | The chunk route's pattern, applied to `chunkname(rate, n)`, recovers `rate` and `n`. |
| Playlist.ChunkNameInjective | stm.js:207-208 | Two chunks share a file name only if they have the same rate and index. |
| Playlist.Insert | stm.js:305 | Inserting into a list sorted by non-increasing bandwidth keeps it sorted, adds exactly that rate, and adds nothing else. |
| Playlist.SortByBandwidth | stm.js:305 | The sorted rates are in non-increasing bandwidth order, and they are a permutation of the input. |
| Playlist.SortSortedIsIdentity | stm.js:305 | Sorting a list already in non-increasing order leaves it as it is. |
| Playlist.RatesDescending | stm.js:165-173 | The configured rates are declared in non-increasing bandwidth order. |
| Playlist.RatesDistinct | stm.js:165-173 | The configured rate names are distinct. |
| Playlist.MasterPlaylist | stm.js:302-309 | The master playlist is "#EXTM3U\n" followed by the variant entries of the rates in their declared order, which is the order the sort by bandwidth produces. |
| Playlist.MasterPlaylistListsEveryRate | stm.js:302-309 | The master playlist is "#EXTM3U\n" followed by one variant entry per rate. The rates appear in non-increasing bandwidth order, each configured rate exactly once. |
| Playlist.Ceil | stm.js:314 | `Math.ceil`: the least integer not below its argument. |
| Playlist.ChunkCountCovers | stm.js:314 | The chunk count is the least number of 5-second chunks that covers the duration. A non-positive duration has none, and a positive one at least one. |
| Playlist.ChunkCountExamples | stm.js:314 | Durations of 25 s, 12.5 s and 0 s give 5, 3 and 0 chunks. |
| Playlist.ChunkEntriesInOrder | stm.js:317-319 | Exactly n entries are listed, and entry i names chunk i. |
| Playlist.EntriesStep | stm.js:317-319 | One pass of the loop appends the entry of chunk i to the entries of the chunks before it. |
| Playlist.MediaPlaylist | stm.js:311-323 | The loop builds the header with `#EXT-X-TARGETDURATION:5`, then the entries of chunks 0 to ceil(duration/5)-1 in order, then "#EXT-X-ENDLIST\n". |
| Session.Cookieify | stm.js:198 | The length is kept; every '/' becomes '_' and every other character is kept. |
| Session.CookieifyHasNoSlash | stm.js:198 | A cookie holds no '/'. |
| Session.CookieifyIdempotent | stm.js:198 | Cookieifying twice is cookieifying once. |
| Session.CookieCollision | stm.js:198-204 | The distinct paths "0/a/b" and "0/a_b" map to the same cookie, and so to the same session. |
| Session.FailsAsWritten | stm.js:286 | The failure test as written: only an exit with a non-zero code. |
| Session.Publishes | stm.js:286-294 | The corrected test for publishing the chunk file: only a clean exit. |
| Session.PublishTests | stm.js:286-294 | The exit test as written fails on every non-zero exit code and publishes on everything else, signals included. The corrected handler publishes on a clean exit only. The publish tests differ exactly on signalled exits, and the failure test is unchanged. |
| Session.FailureReason | stm.js:289-290 | An exit with a non-zero code is rejected with "ffmpeg exited with code " followed by digits that read back as that code. |
| Session.DecideKick | stm.js:222-246 | The encode in flight is reused exactly when it has the same rate and index. Otherwise an index at or past ceil(duration/5) does nothing. An encode is started only for an index before the end whose file is not on disk, and it kills the encode that was in flight. |
| Session.KickAgainReuses | stm.js:223-226 | Kicking a chunk whose encode was just started, and is recorded as in flight, reuses that encode. |
| Session.Lookahead | stm.js:251 | The lookahead test: a last request is set and `last_chunk_requested + encode_ahead > n`. |
| Session.AheadChain | stm.js:248-253 | The chunks encoded one after the other from chunk n: each delivery kicks the next chunk while the lookahead test holds, and a kick past the end does nothing. |
| Session.AheadChainRange | stm.js:248-253 | Starting at most `encode_ahead` past the last request, successive deliveries kick each next chunk, in order. They stop at `encode_ahead` past the request or at the last chunk. |
| Session.AheadOfRequest | stm.js:210-252 | After a request for chunk l, the chain of encodes is exactly chunks l to min(l+5, last chunk). This holds when no other request arrives, no chunk of the rate is on disk and no encode is killed, which are the conditions of `RunAhead`. So production runs at most `encode_ahead` chunks past the last request. |
| Session.Transcode.constructor | stm.js:185-196 | A new session has its cookie, input file and duration, nothing in flight and no request yet. Its chunk files are those already in the session directory. |
| Session.Transcode.Kick | stm.js:222-246 | The result is `DecideKick` of the state before. `encoding` becomes the requested chunk exactly when an encode starts. The invariant that nothing is in flight past the end is kept. |
| Session.Transcode.Chunk | stm.js:209-220 | It records the request as `last_chunk_requested`, then kicks. |
| Session.Transcode.Continue | stm.js:248-255 | The encode in flight is cleared exactly when it is this chunk. Chunk n+1 is kicked exactly when `last_chunk_requested + encode_ahead > n`. |
| Session.Transcode.CloseAsWritten | stm.js:284-298 | As written: a non-zero exit code rejects with its message and keeps the directory as it was. Any other close, a signal included, renames the file into place and resolves. |
| Session.Transcode.Close | stm.js:284-298 | Corrected: a non-zero exit code rejects with its message, as written. A killed encode is superseded: it is not a failure, and it publishes nothing. Only a clean exit publishes the chunk file and resolves. |
| Session.Registry.constructor | stm.js:199 | The registry starts empty. |
| Session.Truthy | stm.js:202 | A file argument counts only when it is given and is not the empty string. |
| Session.Registry.Session | stm.js:200-205 | It returns the session already filed under the cookieified cookie, whether or not a file is given. It creates and files a new session only when there is none and the file is given and not empty. That session starts from the chunk files already in its directory. Otherwise it returns none and changes nothing. Every session stays filed under its own cookie. |
| Session.RunAhead | stm.js:222-253 | A request for chunk l, on a session with nothing in flight and no chunk of the rate on disk, where every encode then exits cleanly. When `Transcode.Chunk`, `Close` and `Continue` run in turn, the chunks started are exactly `AheadChain(l, l, chunks)`. Each of them is published, nothing else is added to the directory, and nothing is left in flight. |
| Session.SeekWhileEncodingAsWritten | stm.js:238-253 | As written: a seek from chunk 50 to chunk 200 kills the encode of chunk 50. That killed encode publishes its partial file as chunk 50, and its continuation kicks chunk 51, which kills the seek's encode of chunk 200. That one then publishes its partial file as chunk 200, and its continuation kicks chunk 201, which kills the encode of chunk 51. |
| Session.SeekWhileEncoding | stm.js:284-291 | Corrected: after the same seek the killed encode is superseded, not resolved, so no continuation runs. It publishes nothing, and the encode of chunk 200 stays in flight. |

## Left out

- The HTTP server and its routes are not modelled (stm.js:24-145), save the chunk-name pattern of the session route. This covers directory listing, metadata replies, the option-string split and the `..` check.
- The metadata probe (`navcodec`, `get_metadata`) is not modelled. Its duration is an input.
- The file system is not modelled: `mkdir`, `existsSync`, `readFile`, `rename`, `unlink`. The chunk files are the set `onDisk`, and a failed `rename` is not modelled.
- `path.join` normalisation of chunk paths is not modelled. Chunk identity is (rate, index).
- Spawning ffmpeg, its arguments and killing it are not modelled. A kill appears as the `killed` encode the kick returns.
- Promises are modelled as synchronous steps. The decision after the metadata promise resolves is taken at once, and the continuation of a kick is the separate method `Transcode.Continue`, which the caller runs when the chunk's file is ready.
- After a kick that does nothing (past the end), the source's `readFile` of an undefined name fails. That HTTP 500 reply is not modelled.
- Floating point is not modelled. Durations are exact reals, PCR times are integer ticks, and `Math.ceil` is exact.
- `encodeURIComponent` on unpaired UTF-16 surrogates, which throws in JavaScript, is not modelled. Dafny characters are Unicode scalar values.
- `Transcode.sessions` is a JavaScript array used as a dictionary, so keys such as "length" clash with array properties. The registry is a plain map.
- An exception thrown by `writePacket` inside an event handler, and its propagation through the packetizer, is not modelled.
- Packets shorter than 12 bytes are not modelled, and `WritePacket` requires 12 bytes. The source stores a shorter packet that lacks the PCR flags, and throws on one that has them.
- The packet counter `packet_num`, logging, and m2test.js are not modelled.
- Mpeg2ts.Packetizer.Write: the packets are returned, not emitted one by one as events. A listener that reacts between packets is not modelled.
- Mpeg2ts.DecodePcr: `hi` is the unsigned low 32 bits of the PCR base. The source's `pcr_hi` is the signed 32-bit result of the shift, which is negative once those bits reach 2^31. `PcrHiAsWritten` models the source's value, and `CutTestsAgree` states where the two readings agree.
- Mpeg2ts.TimeBasedChunkifier.WritePacket: it cuts with the corrected test, `CutsChunk`. The source's test is `CutsChunkAsWritten`, which differs only when the low 32 bits of the base are 2^31 or more, and never cuts a chunk there.
- Util.DecimalRoundTrip: numbers are unbounded integers. In JavaScript, `m[4]-0` is exact only below 2^53, and a number's text is plain digits only below 10^21.
- Session.KickAgainReuses: this holds because the model records the encode as soon as a kick decides to start it. The source records it only after the metadata promise resolves, so two kicks of one chunk in that window both start an encode.
- Session.Transcode.Close: a superseded encode's promise is settled as `Superseded`. The model does not say what a request still waiting on that chunk then receives.
- Uri.PercentDecode: it yields the UTF-8 bytes of the decoded string, not the string. It does not reject escapes that are not valid UTF-8, as `decodeURIComponent` does. `DecodeGivesBack` relates the bytes to the string.

## Findings

| source | as written | input that shows it | evidently intended | confidence | as-written member | corrected member |
|---|---|---|---|---|---|---|
| mpeg2ts.js:43 | `(pcr_0 & 0x7fffffff) << 1`, OR'd with bit 15 of `pcr_1`, is a signed 32-bit result in JavaScript, so `pcr_hi` turns negative once the PCR base reaches 2^31. In a stream whose clock starts near zero, the boundary has passed 23861 s by then, and the signed time never exceeds 23860.9 s again, wrap included. Chunking stops for good, and every later packet piles up in `packets` until `flush`. | a PCR base of 2^31, about 6.6 hours into the stream: bytes 6-11 = 40 00 00 00 00 00 give `pcr_hi` = -2^31 | `pcr_hi` is the base's low 32 bits, never negative. It wraps only at 2^32 (about 13.3 hours), as the comment on line 42 expects. | high; not executed | Mpeg2ts.SignedShiftCounterexample | Mpeg2ts.PcrMatchesStandard |
| stm.js:286 | A close with a null code, after SIGKILL, is not a failure. The killed encode's partial file is renamed to the chunk's name and its promise resolved, so its continuation kicks the next chunk. | chunk 50 is being encoded and the player seeks to chunk 200: chunk 50 is published truncated, and the kick of chunk 51 kills the encode of chunk 200. Chunk 200 is then published truncated too, and the kick of chunk 201 kills the encode of chunk 51 | A killed (superseded) encode is no failure, as the comment on line 286 says. It publishes nothing and starts no continuation. | medium; not executed | Session.SeekWhileEncodingAsWritten | Session.SeekWhileEncoding |
