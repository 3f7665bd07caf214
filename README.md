# Two-party HE matrix multiplication: channel, framing and protocol rules in Dafny

This project models the sequential core of a two-party matrix multiplication service,
in which a client and a server multiply matrices under homomorphic encryption (CKKS) and
talk over UDP. The model covers four parts of it.

- **The UDP channel**, in module `Transport` (`channel.dfy`) and module `Wire` (`channel_wire.dfy`).
  - `send` cuts a message into chunks of at most 1392 bytes.
  - It puts an 8-byte header in front of each chunk: a 32-bit message id, the 16-bit chunk count and the 16-bit chunk index.
  - It emits one datagram per chunk.
  - `recv` keeps a fragment map from message id to a buffer of chunk slots, filling slots as datagrams arrive.
  - Once every slot is non-empty, `recv` returns the slots concatenated in index order and drops the entry.
  - The `Channel` class holds the fragment map. Its methods `Send`, `ReceivePacket` and `Recv` are proved against the functions `Packets`, `Deliver` and `ReceiveFrom`.
- **The tokenizer `split`**, in module `Utils` (`utils.dfy`).
  - Its `while` loop is the method `Split`, proved equal to the function `Tokens`.
  - `Join` undoes it: joining the tokens of any string gives the string back.
  - The other direction holds only under conditions. Splitting a join gives the parts back for a non-empty list of parts that do not contain the delimiter, and only when the delimiter has no proper prefix that is also a suffix (as `"[@@@]"` has none).
- **The message framing and the protocol rules of the server**, in module `Protocol` (`server.dfy`).
  - A ciphertext list travels as one string, with the parts separated by `"[@@@]"`.
  - The server expects the HE parameters framed the same way, in five parts. The client frames them differently (see "## Findings").
  - `recvHECipher` sends the token `"ready-recv-he"` before it receives.
  - `sendHECipher` sends only after it has received that token.
  - The `is_recv_HE` flag orders the phases.
  - `multiplication_offline` works with the transposed shape of the client's matrix.
  - The `Server` class holds that state and a trace of the messages sent and received.
- **The dimension descriptor `MatrixInfo`**, in module `Dimensions` (`matrix_info.dfy`).

Effects the model cannot perform are replaced by values, as follows.
- **The socket.**
  - `Send` returns the datagrams it would hand to `sendto`.
  - Its parameter `socketLimit` says how many `sendto` calls succeed before one fails.
  - `Recv` takes the datagrams `recvfrom` would deliver, in arrival order. Running out of them stands for a failing or timed-out `recvfrom`.
- **The server's channel traffic.**
  - Each `comm->recv` of the server is an `Option<string>` parameter; `None` means the call returned false.
  - Each call's message is appended to the trace.
  - `exit(-1)` becomes a failure result.
- **The message id.** `generate_msg_id` draws on `rand()`, so the id is a parameter.
- **The homomorphic product.** `matrix_cp_mul` is a function parameter of `MultiplicationOffline`.

Four facts about the channel code that the model keeps:
- **Header size.** The header takes 8 bytes: 4 for the id, 2 for the count and 2 for the index.
- **Short datagrams.** A datagram shorter than 8 bytes makes `recv` return false; it is not skipped.
- **Repeated chunks.** A repeated chunk overwrites its slot.
- **Completion.** There is no received-chunk counter: a message is complete when no slot is empty. An empty payload therefore leaves its slot looking unreceived.

## Model

| member | source | states |
|---|---|---|
| Wire.MaxPayloadIsBudgetLessHeader | src/channel.h:95 | the chunk capacity is the 1400-byte datagram budget less the 8-byte header, 1392 |
| Wire.TotalChunks | src/channel.h:96 | the chunk count is the ceiling of length / 1392: the chunks cover the message, one chunk fewer would not, and it is 0 exactly for the empty message |
| Wire.Chunk | src/channel.h:100-101 | every chunk is non-empty and at most 1392 bytes |
| Wire.ChunksConcat | src/channel.h:99-114 | the chunks glued together in index order are the message |
| Wire.ChunksPrefix | src/channel.h:100-101 | the first j chunks are the first min(j * 1392, length) bytes of the message |
| Wire.EncodeHeader | src/channel.h:104-111 | the header occupies exactly 8 bytes |
| Wire.DecodeHeader | src/channel.h:168-173 | the header read from bytes 0-3, 4-5 and 6-7 of a datagram; HeaderRoundTrip and DecodeEncodeHeader prove it inverts EncodeHeader |
| Wire.HeaderRoundTrip | src/channel.h:168-173 | reading the first 8 bytes of an encoded datagram gives back its id, count and index, whatever payload follows |
| Wire.DecodeEncodeHeader | src/channel.h:168-173 | re-encoding a decoded header gives back the first 8 bytes of the datagram |
| Wire.FromToLittleEndian | src/channel.h:107-111 | a number that fits in `width` bytes is recovered from its little-endian bytes |
| Wire.ToFromLittleEndian | src/channel.h:168-173 | bytes decoded to a number encode back to the same bytes |
| Wire.Truncate16 | src/channel.h:108-110 | the conversion to uint16_t keeps every value below 65536 |
| Wire.Packets | src/channel.h:99-122 | send emits one datagram per chunk |
| Wire.PacketContents | src/channel.h:103-114 | each datagram is 9 to 1400 bytes; its header decodes to the id, the count mod 2^16 and the index mod 2^16; its payload is the chunk |
| Wire.ChunkCountWraps | src/channel.h:108-109 | a message of 65536 full chunks announces a chunk count of 0 |
| Transport.Channel.constructor | src/channel.h:34 | a new channel has an empty, well-formed fragment map |
| Transport.Channel.Send | src/channel.h:95-126 | send returns true exactly when every chunk went out; it emits the first min(count, accepted) datagrams of the message, in index order |
| Transport.Channel.ReceivePacket | src/channel.h:162-203 | one pass of recv over a datagram: the outcome and the new fragment map are those of Deliver, and a well-formed map stays well formed |
| Transport.Channel.Recv | src/channel.h:130-208 | recv handles datagrams until one is too short or one completes a message, looping on pending ones; result and map are those of ReceiveFrom, and a well-formed map stays well formed |
| Transport.AllFilled | src/channel.h:186-192 | the completeness scan is true exactly when no slot is empty |
| Transport.Concatenate | src/channel.h:194-198 | the reassembly loop produces the slots concatenated in index order |
| Transport.Deliver | src/channel.h:162-203 | one pass of recv over a datagram as a function of the fragment map: the outcome and the new map; the Deliver* lemmas below state its properties |
| Transport.DeliverWritesSlot | src/channel.h:176-182 | for an id with no entry or an entry without slots, the buffer gets the header's count of slots, all empty except slot `index`; otherwise the entry keeps its size and its other slots; slot `index` then holds the payload |
| Transport.DeliverTooShort | src/channel.h:162-165 | a datagram shorter than 8 bytes fails and leaves the map unchanged |
| Transport.DeliverIsolation | src/channel.h:177-183 | entries of other message ids are neither added, removed nor changed |
| Transport.DeliverOutcome | src/channel.h:186-207 | a datagram completes its message exactly when every slot is then filled; the message is the slots in index order and the id is erased; otherwise the id keeps the partial buffer |
| Transport.DeliverKeepsWellFormed | src/channel.h:177-203 | every kept entry has as many slots as its count, at least one, and some slot empty |
| Transport.DuplicateChunkIsIdempotent | src/channel.h:177-192 | a duplicate datagram, whose payload already sits in its slot of a pending buffer, leaves the map unchanged and the message pending, whatever arrived in between |
| Transport.RedeliveryIsIdempotent | src/channel.h:182 | the special case of the same datagram delivered twice in a row while its message is pending: the second delivery changes nothing |
| Transport.ReceiveFrom | src/channel.h:130-208 | recv reads at most the arrivals given, and at least one before it returns a message |
| Transport.ReceiveChain | src/channel.h:205-207 | along datagrams that each leave the message pending until the last completes it, recv returns the message after exactly those datagrams |
| Transport.ArrivalContents | src/channel.h:168-176 | arrival j carries the header (id, count, order[j]) and chunk order[j] |
| Transport.PartialFilled | src/channel.h:186-198 | the slots are all filled exactly after the last arrival, and then they concatenate to the message |
| Transport.ReassemblyRoundTrip | src/channel.h:177-207 | for a message id with no entry in the map, the datagrams of a non-empty message of at most 65535 chunks, arriving in any order, make recv return that message after exactly those datagrams, leaving the map as before |
| Utils.TokensFrom | src/utils.cpp:27-31 | the reference definition of the tokens emitted from `start`: the text up to the next occurrence, then the tokens after it, and the rest of the string once there is none |
| Utils.Tokens | src/utils.cpp:23-33 | the reference definition of split: the tokens from position 0 |
| Utils.Join | src/server.cpp:142-151 | the reference definition of framing: the parts with the delimiter between neighbours and none after the last |
| Utils.FindFrom | src/utils.cpp:27 | a position find returns lies at or after `start` with room for the delimiter |
| Utils.FindFromIsFirstOccurrence | src/utils.cpp:27 | find returns the first occurrence at or after `start`, and none when there is none |
| Utils.Split | src/utils.cpp:23-33 | the loop returns the tokens of the left-to-right, non-overlapping scan |
| Utils.EmittingTokens | src/utils.cpp:27-31 | continuing the loop after some tokens yields those tokens followed by the tokens of the rest |
| Utils.TokensNonEmpty | src/utils.cpp:31 | split returns at least one token |
| Utils.JoinTokens | src/utils.cpp:27-31 | joining the tokens with the delimiter gives back the string exactly |
| Utils.TokensAvoidDelimiter | src/utils.cpp:27-31 | no token contains the delimiter |
| Utils.SingleTokenIffNoDelimiter | src/utils.cpp:27-31 | split returns [s] exactly when the delimiter does not occur in s |
| Utils.TokenCount | src/utils.cpp:27-29 | there is one token more than there are non-overlapping occurrences found left to right |
| Utils.TokensOfJoin | src/utils.cpp:23-33 | for an unbordered delimiter, splitting a join of one or more delimiter-free tokens gives the tokens back |
| Utils.BorderedDelimiterBreaksRoundTrip | src/utils.cpp:27-29 | with the bordered delimiter "aa", join then split does not give the tokens back |
| Dimensions.NewMatrixInfo | src/matrix_info.h:15-21 | the constructor stores idx, first_row, first_col and second_col from its arguments and makes second_row equal first_col |
| Dimensions.ArgumentsOfNew | src/matrix_info.h:15-21 | the constructor's arguments can be read back from the descriptor |
| Dimensions.ConstructibleIffInnerAgree | src/matrix_info.h:15-21 | a descriptor comes from the constructor exactly when its inner dimensions agree |
| Dimensions.ProductDefined | src/matrix_info.h:17-20 | every constructed descriptor describes a defined product of shape first_row x second_col |
| Dimensions.TransposedProduct | src/server.cpp:193-194 | B^T * A^T is defined exactly when A * B is, and it is (A * B)^T |
| Protocol.ParseHEParams | src/server.cpp:75-78 | the parameters are parts 0 to 4 of the split message; fewer than five parts is an abort (see "## Left out") |
| Protocol.SeparatorUnbordered | src/server.cpp:75 | the separator "[@@@]" has no proper prefix that is also a suffix |
| Protocol.FrameCiphers | src/server.cpp:142-151 | the framing loop builds blob0 + "[@@@]" + ... + blobN-1, with no separator after the last |
| Protocol.EmptyCipherList | src/server.cpp:122-151 | an empty ciphertext list is sent as "", which splits into one empty blob |
| Protocol.CipherFramingRoundTrip | src/server.cpp:177-185 | for a non-empty list of blobs free of the separator, splitting the joined string gives the list back |
| Protocol.AppendAll | src/server.cpp:179-185 | the loading loop appends one ciphertext per token, in order |
| Protocol.ParamsFrameRoundTrip | src/server.cpp:75-78 | five separator-free parts joined with "[@@@]" parse back to those parts |
| Protocol.FrameHEParams | src/server.cpp:75-78 | the framing the server's parse expects: the five parts joined with "[@@@]" (ParamsFrameRoundTrip proves that it parses back) |
| Protocol.ClientFrameHEParams | src/client.cpp:92-95 | the client's framing as written: four parts joined with "[@]" |
| Protocol.ClientFramingMismatch | src/client.cpp:92-95 | for any four parts that do not contain "[@@@]", the client's message joined with "[@]" is a single token for the server's split, so the parse aborts with too few parts |
| Protocol.ClientJoinAvoidsSeparator | src/client.cpp:92-95 | parts free of "[@@@]" joined with "[@]" contain no "[@@@]" |
| Protocol.TransposedOperand | src/server.cpp:209-211 | the offline phase uses rows = first_col and columns = first_row |
| Protocol.OfflineShapesAgree | src/server.cpp:220-228 | S^T times the transposed client matrix has the shape of the transposed product |
| Protocol.Server.constructor | src/server.cpp:4-20 | a new server holds the given descriptors and has an empty trace; it has not received the parameters (the flag's initial value false is assumed, see "## Left out") |
| Protocol.Server.ReadSInputMatrix | src/server.cpp:39-49 | it aborts unless the parameters were received; otherwise it reads a second_row x second_col input; no other state changes |
| Protocol.Server.RecvHEParams | src/server.cpp:61-117 | a failed recv aborts; otherwise the message is logged and parsed; fewer than five parts aborts; only a successful parse sets the parameters and the flag |
| Protocol.Server.SendHECipher | src/server.cpp:121-158 | after receiving the ready token it sends the joined ciphertexts; any other label aborts with nothing sent |
| Protocol.Server.RecvHECipher | src/server.cpp:161-190 | it sends the ready token before receiving; it appends one ciphertext per part of the received message |
| Protocol.Server.MultiplicationOffline | src/server.cpp:204-234 | receive (after the ready token), multiply with column count first_row, then send back after the peer's ready token; the operand shape is first_col x first_row |

## Left out

- Socket setup and use (`socket`, `bind`, `setsockopt`, `sendto`, `recvfrom`, `SO_RCVTIMEO`, `inet_addr`, `inet_ntoa`) and the `initialized` flag: operating-system I/O. The model takes and returns datagrams as values, and the source address `recv` reports is not modelled.
- `generate_msg_id` (`rand()` seeded at construction): global pseudo-random state. The id is a parameter of `Send`.
- `last_update = time(nullptr)`: wall-clock time that nothing reads.
- Transport.Channel.ReceivePacket: it requires the chunk index to name a slot of the buffer, because the source writes `frag.chunks[chunk_index]` without a bounds check. The same applies to a first datagram announcing 0 chunks. Datagrams outside that range are undefined behaviour in the source.
- Wire.EncodeHeader: the header is memcpy'd in host byte order; the model fixes it to little-endian.
- The 65535-chunk limit of the 16-bit header fields: a longer message wraps its announced count (Wire.ChunkCountWraps), and the reassembly round trip is proved only below that limit. `size_t` overflow of the offsets is not modelled.
- All SEAL / HE calls are outside the model: key generation, `load`/`save` of parameters, keys and ciphertexts, `Encryptor`, `CKKSEvaluator`, `matrix_encode`, `transposeMatrix` and `matrix_cp_mul`. These are a foreign library with approximate arithmetic. Ciphertexts and keys are opaque strings, and the product is a function parameter.
- Protocol.ParseHEParams: a message of fewer than five parts is not checked by the source. It indexes parts 1 to 4 unchecked (src/server.cpp:76-78), which is undefined behaviour, and the model turns that case into an abort with `MissingParts`.
- Protocol.Server.constructor: the source never initialises `is_recv_HE` (src/server.cpp:4-20), and the declaring header is not part of this model. The model assumes the initial value false, which is what the destructor's branch on the flag (src/server.cpp:24) suggests is intended.
- Protocol.Server.ReadSInputMatrix and Protocol.Server.MultiplicationOffline: these require `0 <= idx < |infos|`, because the source reads `matrix_info_vec[idx]` without a bounds check (src/server.cpp:46, 206). An index out of range is undefined behaviour there and is not modelled.
- Protocol.Server.RecvHEParams: `stoi` of part 4 and the loads that follow are not modelled, so a malformed number or key is not a failure in the model. Only the part count is checked.
- Protocol.Server.RecvHECipher and Protocol.Server.MultiplicationOffline: these require `isRecvHE`, because loading a ciphertext dereferences the HE context and the product uses the matrix evaluator. Both are created only by `recvHEParams`.
- Protocol.Server.SendHECipher: the return value of `comm->send` is ignored by the server, so the model records the send in the trace and does not model its failure.
- File loading (`readMatrix`, the random and client input matrices) and the file names built from the dimensions: file I/O. `ReadSInputMatrix` records only the shape it reads.
- The online phase (`multiplication_online`, `string_to_matrix`, `matrix_to_string`, `matrix_mul_in_plain`): plaintext floating point.
- `generateRandomString` in src/utils.cpp: a time-seeded generator.
- The client (src/client.cpp): mostly HE setup and file reads. Only its parameter framing is modelled, to exhibit the mismatch below.
- Logging and console colouring (`INFO_PRINT`, `OK_PRINT`, `ERR_PRINT`, `cout`).

## Findings

| source | as written | input that shows it | evidently intended | confidence | as-written member | corrected member |
|---|---|---|---|---|---|---|
| src/client.cpp:92-95 | the client joins four parts (params, public key, relin keys, galois keys) with "[@]" | any four parts free of "[@@@]", for instance "p", "k", "r", "g" giving "p[@]k[@]r[@]g", which the server's split on "[@@@]" leaves as one part, so `recvHEParams` reads past the end of its parts (src/server.cpp:75-78) | five parts, the fifth being the polynomial modulus degree, joined with "[@@@]" | high; not executed | Protocol.ClientFrameHEParams (shown by Protocol.ClientFramingMismatch) | Protocol.FrameHEParams (proved by Protocol.ParamsFrameRoundTrip) |
