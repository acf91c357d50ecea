# RealDB Python client: a verified model of its protocol engine

This project models the TCP client of the RealDB time-series database in Dafny. It covers the three
client modules of the repository:

- `pyapi/py_realdb_sdk.py` is the unified client. It speaks server versions 1, 2 and 3 and offers
  `Ping`, `ReadTagConfig`, `ReadData` and `WriteData`.
- `pyapi/py_realdb_sdk2.py` is the legacy client. It speaks the version 3 frame layout with a fixed
  nonce (10) and version (10000).
- `pyapi/py_realdb_sdk1.py` is the legacy version 1 client. It sends read requests as ASCII text.

The model follows each client's code: the same branches, the same constants and the same error
paths. Methods take the code's imperative form: the receive loops, the request loops, the
interleaving loop, the nested-loop `__flat_2_matrix` and the in-place `__concat_2_matrix`. Each
method is proved equal to a specification function. The properties are lemmas about those functions.

| module (file) | what it models |
|---|---|
| `Bytes` (`bytes.dfy`) | bytes, little-endian signed and unsigned fields, four-byte float words (`Sample`) |
| `Arith` (`arith.dfy`) | small facts about multiplication and Euclidean division |
| `Optional` (`optional.dfy`) | `Option` |
| `Protocol` (`protocol.dfy`) | `ReturnCode`, versions, command tags, the `STAR` greeting, socket traces (`Poll`, `Link`) |
| `AsciiText` (`ascii_text.dfy`) | the version 1 read text `[a,b,c] start duration` and a parser for it |
| `Codec` (`codec.dfy`) | unified request frames for versions 1 to 3, reply layouts, `ping`/`tcon` commands |
| `Reassembler` (`reassembler.dfy`) | unified `__recv_timeout`: frame reassembly with a deadline |
| `Matrix` (`matrix.dfy`) | `__flat_2_matrix` and `__concat_2_matrix`, as functions and as loops |
| `Chunking` (`chunking.dfy`) | how a read range is cut into sub-requests |
| `UnifiedClient` (`unified_client.dfy`) | the unified client's four operations |
| `LegacyCommon` (`legacy_common.dfy`) | legacy statuses, how a call ends, `addr_vals` interleaving |
| `LegacyReassembler` (`legacy_reassembler.dfy`) | the legacy non-blocking `__recv_timeout` with its idle timer |
| `LegacyRead` (`legacy_read.dfy`) | the legacy read path, for both legacy dialects |
| `LegacyV3Codec` (`legacy_v3_codec.dfy`) | the fixed-nonce frames of `py_realdb_sdk2.py` |
| `LegacyV3Client` (`legacy_v3_client.dfy`) | `py_realdb_sdk2.py` `ReadData` and `WriteData` |
| `LegacyV1Client` (`legacy_v1_client.dfy`) | `py_realdb_sdk1.py` `ReadData` and `WriteData` |

The environment is passed in as values:

- The socket is a `Link`: the greeting (`None` when `connect` fails) and, for the k-th request, the
  trace of `recv` results, each with clock readings.
- The k-th `random.getrandbits(64)` is `nonces(k)`.
- Times are integer seconds since 2017-01-01.

In these places the code behaves in ways a reader may not expect; the model follows the code:

- A nonce mismatch is not reported as FAILED whatever the server's code. The code checks the
  server's code first, so a non-OK code is passed on even when the nonce differs
  (`UnifiedClient.ReadRoundCodes`).
- The legacy clients catch nothing. A failed connect, a `struct` error or a division by zero escapes
  the call; the model shows this as `Raised`.
- The unified reassembler's deadline runs from entry to the receive loop and is checked after each
  `recv`. The legacy deadline is an idle timer, reset by each chunk that arrives, with a doubled
  limit before the first byte.
- The unified reassembler unpacks the 17-byte header `4siQb` as soon as more than 8 bytes have
  arrived. With 9 to 16 bytes buffered this raises, and the call is FAILED
  (`Reassembler.ShortHeaderFails`).
- The return-code byte is unpacked signed. A byte of 128 or more is never a valid `ReturnCode`, so
  BUSY, NULL and NOT_FOUND are never reported (`Reassembler.HighCodeByteFails`,
  `Reassembler.SignedCodes`).
- A unified read of duration 0 is FAILED: the loop never runs and `return_code` is never bound.
  A legacy read of duration 0 is S_OK with empty rows (`UnifiedClient.ReadGates`,
  `LegacyRead.ZeroDurationIsOk`).

## Model

| member | source | states |
|---|---|---|
| Protocol.CodeOfValue | pyapi/py_realdb_sdk.py:19-28 | each return code is recovered from its numeric value |
| Bytes.SignedRoundTrip | pyapi/py_realdb_sdk.py:351 | a signed little-endian field decodes to the integer it was packed from |
| Bytes.UnsignedRoundTrip | pyapi/py_realdb_sdk.py:275 | an unsigned little-endian field (`Q`, `H`) decodes to the integer it was packed from |
| Bytes.UnwordsOfWords | pyapi/py_realdb_sdk.py:307-309 | cutting a reply body into four-byte float words and laying them end to end gives the body back |
| Bytes.WordsOfUnwords | pyapi/py_realdb_sdk.py:307-309 | words laid end to end and cut again give the same words |
| AsciiText.ParseIntText | pyapi/py_realdb_sdk.py:284-286 | `str(x)` of any integer, followed by a delimiter, parses back to x |
| AsciiText.ParseListText | pyapi/py_realdb_sdk.py:284-285 | `'[' + ','.join(str(x)) + ']'` parses back to the address list |
| AsciiText.ReadTextRoundTrip | pyapi/py_realdb_sdk.py:284-287 | the version 1 request text determines the addresses, start and duration it was built from |
| Codec.UnpackPackUnsigned | pyapi/py_realdb_sdk.py:274-275 | the `H` address block unpacks to the addresses |
| Codec.UnpackPackSigned | pyapi/py_realdb_sdk2.py:83 | the legacy `h` address block unpacks to the addresses |
| Codec.UnpackPackPairs | pyapi/py_realdb_sdk.py:222-245 | the `hf` / `if` pair block unpacks to the addresses and values |
| Codec.CommandRoundTrip | pyapi/py_realdb_sdk.py:60-69 | a `ping`/`tcon` frame is 24 bytes, its length field is 16, and it decodes to its tag and nonce |
| Codec.EncodeCommand | pyapi/py_realdb_sdk.py:60-69 | a `ping`/`tcon` request is 24 bytes and starts with its four-byte tag |
| Codec.EncodeReadFails | pyapi/py_realdb_sdk.py:270-289 | `pack` raises for an address outside `H`, a start or duration outside `i`, or an unknown version; short lists of fitting fields always pack |
| Codec.EncodeRead | pyapi/py_realdb_sdk.py:268-289 | an unsupported version packs nothing; a packed frame starts with `read`; it is 28 + 2n bytes for version 3 and 24 + 2n for version 2, and for version 1 it carries the request text after its 8-byte header |
| Codec.ReadRoundTrip | pyapi/py_realdb_sdk.py:270-287 | every read frame that packs has the length field its size needs and decodes to its nonce (0 for version 1), start, duration and addresses |
| Codec.ReadRoundTripV3 | pyapi/py_realdb_sdk.py:270-276 | the version 3 read frame is 28 + 2n bytes, has a correct length field, and decodes to the request |
| Codec.ReadRoundTripV2 | pyapi/py_realdb_sdk.py:277-281 | the version 2 read frame is 24 + 2n bytes, has a correct length field, and decodes to the request |
| Codec.ReadRoundTripV1 | pyapi/py_realdb_sdk.py:282-287 | the version 1 read frame carries the request text and decodes to the request |
| Codec.EncodeWriteFails | pyapi/py_realdb_sdk.py:219-247 | `pack` raises for an address outside its field or an unknown version; version 1 frames of fitting addresses always pack |
| Codec.EncodeWrite | pyapi/py_realdb_sdk.py:219-247 | an unsupported version packs nothing; a packed frame starts with `writ` and is 24 + 6n bytes for version 3, 20 + 6n for version 2 and 8 + 8n for version 1 |
| Codec.WriteRoundTrip | pyapi/py_realdb_sdk.py:219-245 | every write frame that packs is well framed and decodes to its nonce, write time and pairs (version 1 carries neither nonce nor time) |
| Codec.WriteRoundTripV3 | pyapi/py_realdb_sdk.py:219-229 | the version 3 write frame is 24 + 6n bytes and decodes to the request |
| Codec.WriteRoundTripV2 | pyapi/py_realdb_sdk.py:230-238 | the version 2 write frame is 20 + 6n bytes and decodes to the request |
| Codec.WriteRoundTripV1 | pyapi/py_realdb_sdk.py:239-245 | the version 1 write frame ignores nonce and time, is 8 + 8n bytes, and decodes to the pairs |
| Codec.DecodeReadReply | pyapi/py_realdb_sdk.py:306-319 | the samples unpack exactly when the reply is the header plus n*duration words, and they are the bytes after the header |
| Codec.DecodePingReply | pyapi/py_realdb_sdk.py:80-83 | a ping reply unpacks exactly when it is 25 bytes; the clock is a signed 64-bit field |
| Codec.TagConfigTextRoundTrip | pyapi/py_realdb_sdk.py:128-134 | a reply that is the 17-byte header followed by the CSV text, with or without a leading UTF-8 byte-order mark, yields exactly that text |
| Reassembler.RecvTimeout | pyapi/py_realdb_sdk.py:329-377 | the receive loop returns the code, nonce and buffer of the reassembly function `Receive` |
| Reassembler.SignedCodes | pyapi/py_realdb_sdk.py:351-352 | a signed code byte can only name FAILED, OK, TIMEOUT, DATETIME_ERROR or ARGUMENT_OUT_OF_RANGE |
| Reassembler.StepSettles | pyapi/py_realdb_sdk.py:338-375 | one turn of the loop keeps the header facts and stops only with a complete frame, a server error, or a failure |
| Reassembler.RunSettles | pyapi/py_realdb_sdk.py:338-377 | the loop ends in TIMEOUT or in a settled reception |
| Reassembler.ReceiveSettles | pyapi/py_realdb_sdk.py:329-377 | the code returned is one the code can produce; on OK the buffer holds a whole frame whose length field it reached |
| Reassembler.RunDelivered | pyapi/py_realdb_sdk.py:341-343 | the buffer only grows, and only by bytes the socket delivered |
| Reassembler.ReceivedPrefix | pyapi/py_realdb_sdk.py:341-343 | what is returned is a prefix of what the socket delivered |
| Reassembler.WholeFrameReceived | pyapi/py_realdb_sdk.py:338-365 | for versions 2 and 3: a frame with an OK code and a correct length field, delivered in any number of chunks before the deadline, none of which leaves 9 to 16 bytes buffered, is returned whole with its nonce and OK |
| Reassembler.WholeFrameReceivedV1 | pyapi/py_realdb_sdk.py:338-365 | for version 1: a frame with a correct length field, delivered in any number of chunks before the deadline, is returned whole with OK and nonce 0 |
| Reassembler.ServerCodePassedOn | pyapi/py_realdb_sdk.py:349-361 | whatever chunks came before, the pass that first has 17 or more bytes buffered and decodes a non-OK code ends the loop with that code, the nonce in the header, and the bytes received so far |
| Reassembler.HighCodeByteFails | pyapi/py_realdb_sdk.py:349-352 | whatever chunks came before, the pass that decodes a header whose code byte is 128 or more ends the loop with FAILED |
| Reassembler.ShortHeaderFails | pyapi/py_realdb_sdk.py:349-351 | whatever chunks came before, a pass that leaves 9 to 16 bytes buffered while the header is still undecoded makes the unpack raise: FAILED, with the bytes received so far |
| Reassembler.LateChunkTimesOut | pyapi/py_realdb_sdk.py:341-346 | whatever chunks came before, a chunk whose clock reading is past the deadline ends the loop with TIMEOUT, its bytes appended |
| Reassembler.SocketErrorsEndLoop | pyapi/py_realdb_sdk.py:367-375 | a `recv` that times out ends the loop with TIMEOUT, and any other `recv` error with FAILED, keeping the bytes received before |
| Matrix.Flat2Matrix | pyapi/py_realdb_sdk.py:380-382 | `dimension` rows, each `len // dimension` long |
| Matrix.FlattenFlat2Matrix | pyapi/py_realdb_sdk.py:380-382 | the rows laid end to end are the input less the dropped remainder, and the whole input when it divides evenly |
| Matrix.Flat2MatrixOfFlatten | pyapi/py_realdb_sdk.py:380-382 | splitting rows laid end to end gives the rows back |
| Matrix.ConcatRectangular | pyapi/py_realdb_sdk.py:385-388 | joining k1-wide and k2-wide rows gives (k1+k2)-wide rows |
| Matrix.ConcatOntoEmpty | pyapi/py_realdb_sdk.py:158 | joining onto the initial empty rows gives the rows |
| Matrix.ConcatAssociative | pyapi/py_realdb_sdk.py:385-388 | joining sub-request results is associative |
| Matrix.Flat2MatrixLoop | pyapi/py_realdb_sdk1.py:123-130 | the nested loop builds the same rows as the comprehension |
| Matrix.ConcatInPlace | pyapi/py_realdb_sdk2.py:143-150 | appending in place leaves the joined matrix in `m1` |
| Matrix.Concat2Matrix | pyapi/py_realdb_sdk.py:385-388 | the joined matrix has as many rows as the first one, whatever the second has |
| Chunking.ChunkCount | pyapi/py_realdb_sdk.py:174-175 | a read of d seconds sends ceil(d / limit) sub-requests |
| Chunking.ChunksTile | pyapi/py_realdb_sdk.py:174-175 | the sub-ranges lie end to end over `[start, start + duration)` |
| Chunking.ChunkAt | pyapi/py_realdb_sdk.py:174-175 | sub-range k starts at start + k*limit; all but the last are full; none is empty |
| Chunking.TilesCover | pyapi/py_realdb_sdk.py:174-175 | every second of the range is asked for by exactly one sub-request |
| Chunking.TilesOffset | pyapi/py_realdb_sdk.py:174-181 | the sub-ranges before the k-th add up to its distance from the start, so its samples land at that offset in each joined row |
| Chunking.FifteenThousandSeconds | pyapi/py_realdb_sdk.py:15 | illustration only: 15000 seconds go out as 7200, 7200 and 600 |
| UnifiedClient.ReadRoundMeans | pyapi/py_realdb_sdk.py:268-326 | OK exactly when the request packs for a supported version, the reply is OK with the expected nonce, the duration is not negative, there are addresses, and the reply is exactly the header plus n*duration samples; then the rows are those samples, channel by channel |
| UnifiedClient.ReadRound | pyapi/py_realdb_sdk.py:268-326 | the frame sent is the packed request, and a sub-request that is not OK returns no rows |
| UnifiedClient.ReadAnswered | pyapi/py_realdb_sdk.py:268-326 | end to end: a reply frame with OK, the expected nonce and exactly n*duration samples, delivered in time, makes the sub-request OK with n rows of `duration` samples that laid end to end are the reply body |
| UnifiedClient.MakeReadRequest | pyapi/py_realdb_sdk.py:268-326 | the sub-request method ends as `ReadRound`, which `ReadRoundMeans` characterises in both directions |
| UnifiedClient.V1NonceAlwaysMatches | pyapi/py_realdb_sdk.py:353-356 | version 1 has no nonce, so its check always passes |
| UnifiedClient.ReadRoundCodes | pyapi/py_realdb_sdk.py:295-303 | a server error is passed on; a nonce mismatch after OK is FAILED; BUSY, NULL and NOT_FOUND never occur |
| UnifiedClient.RequestLoop | pyapi/py_realdb_sdk.py:174-183 | the request loop ends as `ReadRange`, the chunk recursion over the sub-ranges from one empty row per address; with no sub-range `return_code` stays unbound and nothing is sent |
| UnifiedClient.ReadData | pyapi/py_realdb_sdk.py:149-187 | `ReadData` ends as `ReadSpec`, which `ReadGates`, `ReadOutcomeShape`, `ReadRowsInOrder` and `ReadStopsAtFirstError` characterise |
| UnifiedClient.ReadGates | pyapi/py_realdb_sdk.py:151-171 | a negative start or duration is FAILED before connecting; a bad greeting is CONNECT_ERROR; duration 0 is FAILED |
| UnifiedClient.ReadOutcomeShape | pyapi/py_realdb_sdk.py:149-187 | all or nothing: on OK one row per address of `duration` samples, and the frames sent decode to requests with their own nonces that tile the range in order, each of at most 7200 seconds |
| UnifiedClient.ReadRowsInOrder | pyapi/py_realdb_sdk.py:174-187 | on OK every sub-request was OK and the rows are theirs joined channel by channel in the order sent: row i holds row i of sub-request j from `chunks[j].start - start` on (`InOrder`, with `Rounds` the outcome of each `__mk_a_read_req`) |
| UnifiedClient.ReadStopsAtFirstError | pyapi/py_realdb_sdk.py:174-180 | once connected, a read that is not OK returns the code of some sub-request j, every sub-request before j was OK, and the frames sent are exactly those of sub-requests 0 to j, none after it (`FailedAt` over `Rounds`) |
| UnifiedClient.SingleRequestRows | pyapi/py_realdb_sdk.py:174-183 | a read that fits one request returns exactly the reply's samples, channel by channel |
| UnifiedClient.WriteData | pyapi/py_realdb_sdk.py:190-265 | `WriteData` ends as `WriteSpec`, which `WriteOutcomeMeans` characterises in both directions |
| UnifiedClient.WriteOutcomeMeans | pyapi/py_realdb_sdk.py:199-261 | mismatched lists are FAILED before connecting; a bad greeting is CONNECT_ERROR with nothing sent; OK exactly when the lists match, the greeting is `STAR`, the frame packs and, for versions 2 and 3, the reply is OK and echoes the nonce; a server error is passed on; an OK frame decodes to the pairs |
| UnifiedClient.WriteAnswered | pyapi/py_realdb_sdk.py:249-261 | end to end for versions 2 and 3: an OK reply echoing the nonce, delivered in time, makes the write OK with the packed frame sent |
| UnifiedClient.Ping | pyapi/py_realdb_sdk.py:46-92 | `Ping` ends as `PingSpec`, which `PingOutcomeMeans` characterises in both directions |
| UnifiedClient.PingOutcomeMeans | pyapi/py_realdb_sdk.py:46-86 | a bad greeting is CONNECT_ERROR; versions other than 3 are FAILED; OK exactly when the greeting is `STAR`, the version is 3 and the reply is OK, echoes the nonce and is 25 bytes; then a 24-byte `ping` frame was sent and the result is the reply clock; a server error is passed on |
| UnifiedClient.PingAnswered | pyapi/py_realdb_sdk.py:60-86 | end to end: a 25-byte OK reply echoing the nonce, delivered in time, makes `Ping` OK with the signed clock field of the reply |
| UnifiedClient.ReadTagConfig | pyapi/py_realdb_sdk.py:94-147 | `ReadTagConfig` ends as `TagConfigSpec`, which `TagConfigOutcomeMeans` characterises in both directions |
| UnifiedClient.TagConfigOutcomeMeans | pyapi/py_realdb_sdk.py:94-141 | a bad greeting is CONNECT_ERROR; versions other than 3 are FAILED; OK exactly when the greeting is `STAR`, the version is 3 and the reply is OK and echoes the nonce; then a `tcon` frame was sent and the text is the reply after its header, less a byte-order mark; a server error is passed on |
| UnifiedClient.TagConfigAnswered | pyapi/py_realdb_sdk.py:108-141 | end to end: an OK reply echoing the nonce whose body is the CSV text, with or without a byte-order mark, delivered in time, makes `ReadTagConfig` OK with exactly that text |
| LegacyCommon.InterleaveLoop | pyapi/py_realdb_sdk2.py:68-71 | the loop builds `addr_vals` as the interleaving of addresses and values |
| LegacyCommon.InterleavedAt | pyapi/py_realdb_sdk2.py:68-71 | position 2i holds address i and position 2i+1 value i |
| LegacyCommon.PackInterleaved | pyapi/py_realdb_sdk1.py:68 | packed `addr_vals` take w + pad + 4 bytes a pair, and without padding are the pair records |
| LegacyReassembler.RecvTimeout | pyapi/py_realdb_sdk2.py:96-126 | the legacy receive loop returns the flag and buffer of the function `Receive` |
| LegacyReassembler.StepFramed | pyapi/py_realdb_sdk2.py:104-121 | one turn keeps the header facts, only appends what arrived, and stops without a time-out only on a whole frame |
| LegacyReassembler.RunFramed | pyapi/py_realdb_sdk2.py:104-126 | the loop's buffer holds a whole frame unless it timed out, and only holds delivered bytes |
| LegacyReassembler.ReceiveFramed | pyapi/py_realdb_sdk1.py:98-120 | the same for the version 1 header |
| LegacyReassembler.WholeFrameReceived | pyapi/py_realdb_sdk2.py:104-121 | a frame with a correct length field, delivered in any number of chunks, each within the idle limit of the one before (twice the limit before the first byte), is returned whole without a time-out |
| LegacyReassembler.SilentServerTimesOut | pyapi/py_realdb_sdk2.py:104-110 | a server that sends nothing makes the loop time out with an empty buffer |
| LegacyRead.SubDuration | pyapi/py_realdb_sdk2.py:44-46 | the sub-request asks for the limit, cut short at the end of the range |
| LegacyRead.ReadRoundMeans | pyapi/py_realdb_sdk2.py:77-94 | S_FAIL means the reply timed out; S_OK means it came in time with exactly the header and n*duration samples, which the rows hold |
| LegacyRead.ReadRound | pyapi/py_realdb_sdk2.py:77-94 | the frame sent is the packed request, and a sub-request that is not S_OK returns no rows |
| LegacyRead.ReplyCodeIgnored | pyapi/py_realdb_sdk2.py:85-92 | a reply of the right size is S_OK whatever its code or nonce |
| LegacyRead.ZeroDurationIsOk | pyapi/py_realdb_sdk2.py:31-54 | a zero-length read is S_OK with one empty row per address and sends nothing |
| LegacyRead.RequestRoundTrip | pyapi/py_realdb_sdk2.py:83 | each legacy request frame is well framed and decodes to its start, duration and addresses |
| LegacyRead.ReadOutcomeShape | pyapi/py_realdb_sdk2.py:31-54 | all or nothing: on S_OK one row per address of `duration` samples, and the frames sent tile the range in sub-requests of at most the limit |
| LegacyRead.ReadRowsInOrder | pyapi/py_realdb_sdk2.py:43-54 | on S_OK every sub-request was S_OK and the rows are theirs appended channel by channel in the order sent: row i holds row i of sub-request j from `chunks[j].start - start` on (`InOrder`, with `Rounds` the outcome of each `__mk_a_read_req`) |
| LegacyRead.ReadStopsAtFirstError | pyapi/py_realdb_sdk2.py:43-52 | once connected, a read that is not S_OK ends as some sub-request j did, every sub-request before j was S_OK, and the frames sent are exactly those of sub-requests 0 to j, none after it (`FailedAt` over `Rounds`) |
| LegacyV3Codec.EncodeReadFails | pyapi/py_realdb_sdk2.py:83 | `pack` raises for an address outside `h` or a start or duration outside `i`; short lists of fitting fields always pack |
| LegacyV3Codec.EncodeRead | pyapi/py_realdb_sdk2.py:83 | a packed read frame is 28 + 2n bytes and starts with `read` |
| LegacyV3Codec.ReadRoundTrip | pyapi/py_realdb_sdk2.py:83 | the read frame is 28 + 2n bytes, well framed, and carries nonce 10, version 10000, start, duration and addresses |
| LegacyV3Codec.WriteRoundTrip | pyapi/py_realdb_sdk2.py:72 | the write frame without alignment padding is 24 + 6n bytes, well framed, and decodes to nonce 10, version 10000, the time and the pairs |
| LegacyV3Codec.EncodeWrite | pyapi/py_realdb_sdk2.py:72 | the write frame its length field describes is 24 + 6n bytes and starts with `writ` |
| LegacyV3Codec.WriteAsWrittenMisframed | pyapi/py_realdb_sdk2.py:72 | the native-aligned write frame is 24 + 8n bytes but its length field says 16 + 6n |
| LegacyV3Codec.OnePairWriteAsWritten | pyapi/py_realdb_sdk2.py:72 | one pair packs to 32 bytes whose length field says 22 |
| LegacyV3Codec.EncodeWriteAsWritten | pyapi/py_realdb_sdk2.py:72 | the write frame as packed with native alignment is 24 + 8n bytes and starts with `writ` |
| LegacyV3Codec.AsWrittenStripped | pyapi/py_realdb_sdk2.py:72 | the padded frame packs exactly when the unpadded one does, and removing the two padding bytes after each address gives the unpadded frame |
| LegacyV3Client.MakeReadRequest | pyapi/py_realdb_sdk2.py:77-94 | the sub-request method ends as `LegacyRead.ReadRound` for the version 3 dialect |
| LegacyV3Client.RequestLoop | pyapi/py_realdb_sdk2.py:43-54 | the loop, appending into `ret_data` in place from one empty row per address, ends as `LegacyRead.ReadRange`, the chunk recursion over the range; on S_OK the array `retData` holds exactly the rows returned |
| LegacyV3Client.ReadData | pyapi/py_realdb_sdk2.py:31-54 | `ReadData` ends as `LegacyRead.ReadSpec`, which `LegacyRead.ReadOutcomeShape`, `LegacyRead.ReadRowsInOrder` and `LegacyRead.ReadStopsAtFirstError` characterise |
| LegacyV3Client.WriteData | pyapi/py_realdb_sdk2.py:56-75 | `WriteData` ends as `WriteSpec`, which sends the frame as the code packs it, with native alignment padding |
| LegacyV3Client.WriteOutcomeMeans | pyapi/py_realdb_sdk2.py:56-75 | S_OK exactly when the lists match, the connection is made and the fields fit; S_FAIL exactly on mismatched lists; on S_OK the frame sent is 24 + 8n bytes, its length field says 16 + 6n, so it is misframed whenever n > 0, and with its padding removed it is well framed and decodes to nonce 10, version 10000, the time and the pairs; the reply plays no part |
| LegacyV1Client.MakeReadRequest | pyapi/py_realdb_sdk1.py:73-88 | the sub-request method ends as `LegacyRead.ReadRound` for the text dialect |
| LegacyV1Client.RequestLoop | pyapi/py_realdb_sdk1.py:43-54 | the loop, appending into `ret_data` in place from one empty row per address, ends as `LegacyRead.ReadRange`, the chunk recursion over the range; on S_OK the array `retData` holds exactly the rows returned |
| LegacyV1Client.ReadData | pyapi/py_realdb_sdk1.py:31-54 | `ReadData` ends as `LegacyRead.ReadSpec`, which `LegacyRead.ReadOutcomeShape`, `LegacyRead.ReadRowsInOrder` and `LegacyRead.ReadStopsAtFirstError` characterise |
| LegacyV1Client.PackWriteIsEncodeWrite | pyapi/py_realdb_sdk1.py:68 | packing `4si` + `if`*n is the version 1 write frame, and raises exactly when that frame cannot be encoded |
| LegacyV1Client.WriteData | pyapi/py_realdb_sdk1.py:56-71 | `WriteData` ends as the function `WriteSpec` |
| LegacyV1Client.WriteOutcomeMeans | pyapi/py_realdb_sdk1.py:56-71 | S_OK exactly when the lists match, the connection is made and the fields fit; S_FAIL exactly on mismatched lists; the frame decodes to the pairs; the reply plays no part |

## Left out

- Sockets are not modelled: `connect`, `sendall`, `settimeout`, `setblocking` and `close`. A call sees
  a `Link` (the greeting, then one trace of `recv` results per request) and returns the frames it
  would send.
- `time.time()` readings are the clock values carried by each `Poll`. `time.sleep(0.1)` in the legacy
  loop has no effect in the model beyond the next reading.
- A trace that runs out before the loop stops is read as the deadline passing.
- `random.getrandbits(64)` is the `nonces` parameter.
- `print` is not modelled.
- Times are not converted: start, duration and write time are the integers the code derives from
  `datetime` values (seconds since 2017-01-01, truncated by `int`). `datetime.now()` as the default
  write time is the caller's integer.
- Sample values are opaque four-byte words. The conversion of Python floats to float32 is not
  modelled, so neither is the `OverflowError` that `pack` raises for a float out of float32 range.
- The 512-byte `recv` size is not modelled: a trace may deliver chunks of any size.
- `int(len(v1) / dimension)` in `pyapi/py_realdb_sdk1.py` divides in floating point. It is modelled
  as integer division, which agrees for every reply the unpack accepts: the length is then exactly
  n*duration.
- The connect-error branch of the unified `WriteData` returns a pair instead of a bare code. The
  model returns the code only.
- `pyapi/test1.py` and `pyapi/test2.py` are not part of this model.
- UnifiedClient.ReadTagConfig: returns the CSV bytes after the header and byte-order mark. It does
  not decode UTF-8 or split rows, so a reply that is not valid UTF-8 is OK here but FAILED in the code.
- UnifiedClient.Ping: returns the server clock in milliseconds. It does not build the `datetime`,
  so a clock value that `fromtimestamp` rejects is OK here but FAILED in the code.
- The unified receive loop catches `TimeoutError` (`pyapi/py_realdb_sdk.py:367`). The model reads a
  `recv` that times out as TIMEOUT, which holds on Python 3.10 and later, where `socket.timeout` is
  `TimeoutError`. On older Pythons such a time-out reaches `except Exception`
  (`pyapi/py_realdb_sdk.py:372-375`) and is FAILED.

## Findings

| source | as written | input that shows it | evidently intended | confidence | as-written member | corrected member |
|---|---|---|---|---|---|---|
| pyapi/py_realdb_sdk2.py:72 | the write frame is packed with `'4siqii'+'hf'*n` and no byte-order prefix, so native alignment puts 2 padding bytes after each `h` and the frame is 24 + 8n bytes, while its length field says 16 + 6n | one pair (address 1, value 1.0): 32 bytes with length field 22, where a well-framed frame needs 24 | pack without padding (`=`), as the unified client's writer does at `pyapi/py_realdb_sdk.py:222`, so that the frame is 24 + 6n bytes and its length field is correct; the read request at `pyapi/py_realdb_sdk2.py:83` packs without `=` too, but its layout needs no padding | not executed | LegacyV3Codec.WriteAsWrittenMisframed, LegacyV3Codec.OnePairWriteAsWritten | LegacyV3Codec.WriteRoundTrip, LegacyV3Codec.AsWrittenStripped |
