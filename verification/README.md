# Melsec MC client: verified model

A Dafny model of the C client library for Mitsubishi's MC protocol (QnA-compatible 3E frame, binary and ASCII),
with proofs of what its transactions, frames, tables and printers guarantee. `dafny verify dfyconfig.toml`
checks everything.

The library talks to a PLC over TCP. A call parses an address such as `D100`, builds a batch read or write,
packs it under a global mutex with the network and station of the last connect, and then runs one transaction:
find or create the connection's mutex in a 64-slot table, hold it while the request is sent with two nested
retry loops and one response frame is read, release it, and parse the response.

## How the model is laid out

| part | modules |
|---|---|
| Threads, locks and the PLC as an interleaving machine | `Transactions` (the steps), `TransactionFrames` (what each step leaves alone), `TransactionLocks`, `TransactionStations`, `TransactionPairing`, `TransactionHistory`, `TransactionCodes` (one invariant each), `TransactionTheorems` (what holds in every reachable state), `TransactionProgress` (every call returns), `BrokenStream` (runs that show why pairing has conditions) |
| One call by itself, and the machine against it | `OneCall`, `TransactionRefinement` (step by step), `TransactionOutcomes` (whole runs) |
| The two encodings | `Requests` (builders), `Framing` (packers, frame sizes), `Decoding` (reference decoders, meaning of frames), `Devices`, `Hex`, `BoolPacking` |
| A PLC with a memory, and the library against it | `Plc`, `TypedArrays`, `EndToEnd` (one write and one read), `Serialized` and `Linearizability` (all threads and connections at once) |
| Streams in arbitrary pieces | `Receiving`, `Responses`, `Sending` |
| Tables and printers | `LockTable`, `ConfigTable`, `AddressText`, `Itoa`, `Numerals`, `Bytes` |

Code that fills buffers or updates static arrays in place is a method or a class proved against a function; the
laws are lemmas about those functions. The interleaving machine is a function from a state and a labelled step
to the next state: a step is one access to shared state (a lock, the table, the global address, a `send`, a
`recv`), any thread or the PLC may take the next one, and the number of threads and steps is not bounded.
Sockets are scripts of outcomes (some bytes, interrupted, failed, closed), so that every splitting of a stream
is covered.

The steps of the machine follow these lines of the binary client, and their twins in
`melsec_mc_net/melsec_mc_ascii.c` at 72-110, 346-372, 422-469, 590-633 and 854-857:

| step | lines |
|---|---|
| `ConnectStep` | `melsec_mc_net/melsec_mc_bin.c` 207-210 |
| `PackStep` | `melsec_mc_net/melsec_mc_bin.c` 279-281, 107-111 |
| `LookupStep` | `melsec_mc_net/melsec_mc_bin.c` 67-79 |
| `FdStep` | `melsec_mc_net/melsec_mc_bin.c` 81, 118-122 |
| `RetryStep` | `melsec_mc_net/melsec_mc_bin.c` 121-142, `melsec_mc_net/melsec_helper.c` 521-542, `melsec_mc_net/socket.c` 46, 80 |
| `SendStep` | `melsec_mc_net/socket.c` 52-77 |
| `ReadStep` | `melsec_mc_net/melsec_mc_bin.c` 152-178, 906-964 |
| `UnlockStep` | `melsec_mc_net/melsec_mc_bin.c` 84-105, 144-149 |

## What is assumed

- The global mutex is initialised before the threads start, and a connection is used with one protocol. The
  binary and the ASCII client each have their own lock table and their own initialisation flag.
- In the machine the PLC takes complete request frames off a connection in order and answers each with one
  frame; the content of the answer is arbitrary. The reference PLC of `Plc` is used where memory matters.
- The configuration read inside a transaction is an arbitrary value, since it is read without the global mutex.
- `recv` returns at most what was asked for, and `send` that returns a count has sent that prefix.

## What the code does not do

Properties that do not hold as intended, each with its exact condition or a concrete run:

- SUCCESS does not always mean one's own answer. A receive that fails before the first byte leaves its answer in
  the stream, and every later transaction on that connection gets the answer of an earlier one
  (`BrokenStream.WrongAnswerAfterTimeout`). `TransactionTheorems.SuccessHoldsAnswer` says which: with n answers
  late when the mutex was taken, that of the request sent n places earlier. So a transaction holds its own answer if
  and only if no answer was late, or the two answers are the same bytes (`TransactionTheorems.OwnAnswerExactly`).
  This is for streams on which a send, or a receive after its first byte, has not failed; a caller can check the
  rest by `TransactionTheorems.PairedByReturnCodes`.
- A send that fails part way and is then retried puts the request behind its own beginning, and the PLC takes bytes
  nobody meant as a request (`BrokenStream.WrongRequestAfterPartialWrite`, where the only transaction of the run
  returns SUCCESS). No return code shows it.
- MALLOC_FAILED does not tell whether the stream is sound: a response of more than its header is left unread, one
  without data is not (`BrokenStream.SoundAfterMallocFailed`, `TransactionTheorems.SoundIffBenign`).
- The binary packing of bit values drops every value set at an odd index in the upper half, because
  `melsec_mc_net/melsec_helper.c:422` compares an index with the packed length; `BoolPacking.ComesBackExactly`,
  `BoolPacking.LosslessLengths` and `EndToEnd.WriteThenReadFlags` say exactly when nothing is lost.
- Starts and counts are not checked against their fields: `Decoding.MeansWhatWasAsked` and
  `EndToEnd.ReadAnswered` give the exact ranges.

Where the documentation and the code differ, the code is followed:

- The sample frames at `docs/melsec_mc_bin_ascii协议api手册.md:183`, `:222` and `:263` carry word data that is not
  swapped, against section 4 of the same chapter and `melsec_mc_net/melsec_mc_ascii.c:239-244`;
  `Decoding.UnswappedMeansOtherWords` says what such data means.
- The monitoring timer is 0x000A in binary and "0010" in ASCII, so it is no part of the equivalence of the encodings.

## Model

| member | source | states |
|---|---|---|
| TransactionOutcomes.CallIsSequential | melsec_mc_net/melsec_mc_bin.c:107-150 | in every interleaving, a transaction that returns gives the code and the response that the retry loops and the response reader, run by themselves, give on what its own sends and receives returned and the retry count it read; or it was turned away for its descriptor or for want of a mutex |
| TransactionOutcomes.CodesTellWhatHappened | melsec_mc_net/melsec_mc_bin.c:107-150 | INVALID_PARAMETER exactly for a bad descriptor, FAILED exactly without a mutex, SOCKET_SEND_FAILED exactly after 3 * (n + 1) failed writes for the retry count n this call read, and none for n < 0; CONNECTION_CLOSED, SOCKET_RECV_FAILED and MALLOC_FAILED exactly when that happened to this call |
| TransactionOutcomes.ConfigRefines | melsec_mc_net/melsec_mc_bin.c:118-135 | the loops start with all the writes that the retry count just read allows, and with none for a negative one |
| TransactionOutcomes.LookupRefines | melsec_mc_net/melsec_mc_bin.c:67-79 | the machine's lookup answers a mutex exactly when that of the call by itself does |
| TransactionTheorems.OneTransactionPerFd | melsec_mc_net/melsec_mc_bin.c:67-105 | in every reachable state, at most one thread lies between taking a connection's mutex and releasing it |
| TransactionTheorems.ReleasesWhatItTook | melsec_mc_net/melsec_mc_bin.c:84-105 | the second lookup never fails, and the mutex it releases is the one acquired and still held by this thread |
| TransactionTheorems.SuccessHoldsAnswer | melsec_mc_net/melsec_mc_bin.c:107-150 | in every interleaving, if the stream was not garbled when the mutex was taken and none of the call's own sends failed part way, SUCCESS gives the PLC's answer to the request sent as many places before its own as answers were late at that moment |
| TransactionTheorems.OwnAnswerExactly | README.md:246 | such a transaction holds the answer to its own request if and only if no answer was late, or the PLC answered both requests with the same bytes |
| TransactionTheorems.ResponsesNeverInterleave | README.md:246 | in every interleaving, a transaction that took the mutex of a sound stream and tore nothing itself holds, with SUCCESS, the answer to the very request this thread sent |
| TransactionTheorems.SoundIffBenign | melsec_mc_net/melsec_mc_bin.c:137-149 | between transactions, a connection on which no send failed part way is sound if every transaction on it has returned SUCCESS or SOCKET_SEND_FAILED, and only if none has returned a code other than these and MALLOC_FAILED; where none has returned MALLOC_FAILED, exactly in the first case |
| TransactionTheorems.PairedByReturnCodes | README.md:246 | on a connection where no send failed part way, SUCCESS means one's own answer if those that returned before the mutex was taken returned SUCCESS or SOCKET_SEND_FAILED |
| TransactionTheorems.AnswersInOrder | melsec_mc_net/melsec_mc_bin.c:107-150 | on a stream that is not garbled the i-th answer is to the i-th request sent whole, timeouts or not |
| TransactionTheorems.NeverSentTwice | melsec_mc_net/melsec_mc_bin.c:121-135 | over all connections, the retry loops never get the request of one transaction onto the wire whole more than once |
| TransactionTheorems.NeverStuck | melsec_mc_net/melsec_mc_bin.c:74-109 | no deadlock: while a thread is in a call, some thread in a call or the PLC has an enabled step, and while no stream is garbled one that is no I/O failure |
| TransactionProgress.WritesWithinBudget | melsec_mc_net/melsec_mc_bin.c:121-135 | no transaction, however interleaved, tries to write its request more than 3 * (retry_count + 1) times |
| TransactionProgress.EveryCallReturns | melsec_mc_net/melsec_mc_bin.c:67-150 | from any reachable state and in every interleaving, a call returns within a number of its own uninterrupted steps that depends only on its thread and the retry limit |
| TransactionTheorems.PackedWithLatestConnect | melsec_mc_net/melsec_mc_bin.c:207-210 | a frame packed under the global mutex names the network and station of the latest completed connect |
| TransactionTheorems.SentWithOneConnect | melsec_mc_net/melsec_mc_bin.c:279-290 | whatever connects run meanwhile, the frame sent carries the pair of one completed connect, never a mixture |
| BrokenStream.WrongAnswerAfterTimeout | melsec_mc_net/melsec_mc_bin.c:160-172 | for any two requests, a reachable state in which a transaction returned SUCCESS with the answer to another thread's request, after that thread's receive failed before its first byte |
| BrokenStream.WrongRequestAfterPartialWrite | melsec_mc_net/melsec_helper.c:521-542 | a reachable state in which the only transaction returned SUCCESS with the answer to a request nobody made, after a send that failed part way and a retry that succeeded |
| BrokenStream.SoundAfterMallocFailed | melsec_mc_net/melsec_mc_bin.c:932-946 | a reachable state in which MALLOC_FAILED is the only code returned and the stream is sound, since the header of the response was all of it |
| OneCall.SendAndReceive | melsec_mc_net/melsec_mc_bin.c:107-150 | one whole call by itself: bad parameters and a lookup without a mutex leave socket and stream untouched, a failed send leaves the stream untouched, and otherwise the code and the frame are the reader's |
| TransactionRefinement.ReadsAsReadResponse | melsec_mc_net/melsec_mc_bin.c:906-964 | for every script of receive outcomes, the machine's reader gives the code and the frame of the sequential reader |
| TransactionRefinement.ReceiveRefines | melsec_mc_net/melsec_mc_bin.c:152-178 | each receive of the machine is one outcome of such a script: what the reader will make of the rest does not change |
| TransactionRefinement.FailedReceiveRefines | melsec_mc_net/melsec_mc_bin.c:157-171 | a receive of the machine that fails ends the read with the code of that failure, as it does in a script |
| TransactionRefinement.NoMemoryRefines | melsec_mc_net/melsec_mc_bin.c:932-936 | without memory for the response the code is the sequential reader's |
| TransactionRefinement.EveryOutcomeIsAStep | melsec_mc_net/socket.c:52-77 | the machine has a step for every count a send or a receive may return, for interruptions and for failures |
| TransactionRefinement.SendsAsTry | melsec_mc_net/melsec_mc_bin.c:121-135 | for every script of send outcomes, the machine's loops succeed or fail as the sequential loops with 3 * (retry_count + 1) tries do, with the same outcomes left |
| TransactionRefinement.LoopRefines | melsec_mc_net/melsec_helper.c:521-542 | the steps around the writes leave that outcome as it is |
| TransactionRefinement.SendRefines | melsec_mc_net/socket.c:52-77 | each send of the machine is one outcome of the script |
| LockTable.LookupContract | melsec_mc_net/melsec_mc_bin.c:40-65 | one lookup keeps slots in use a prefix of initialised mutexes with distinct descriptors, answers NULL exactly when the descriptor is absent and the table is full or the mutex cannot be initialised, and disturbs no other entry |
| LockTable.RunIsValid | melsec_mc_net/melsec_mc_bin.c:30-65 | that shape holds after every run of lookups |
| LockTable.SlotNeverMoves | melsec_mc_net/melsec_mc_ascii.c:45-70 | once a descriptor has a slot, every longer run of lookups finds the same slot |
| LockTable.PresentIffServed | melsec_mc_net/melsec_mc_bin.c:40-65 | a descriptor is in the table exactly when one of its lookups answered a mutex |
| LockTable.ConnectionLocks.GetOrCreateFdMutex | melsec_mc_net/melsec_mc_bin.c:40-65 | the search and insertion loops over the static array compute that lookup in place |
| LockTable.ConnectionLocks.FindFdMutex | melsec_mc_net/melsec_mc_bin.c:92-97 | the release's search finds the first slot in use for the descriptor, if any |
| Requests.BuildReadCoreCommand | melsec_mc_net/melsec_helper.c:15-38 | the bytes of a binary read command, for every start and count |
| Requests.BuildWriteWordCoreCommand | melsec_mc_net/melsec_helper.c:94-128 | the bytes of a binary word write, whose count is half the data length |
| Requests.BuildWriteBitCoreCommand | melsec_mc_net/melsec_helper.c:196-237 | the bytes of a binary bit write |
| Requests.BuildAsciiReadCoreCommand | melsec_mc_net/melsec_mc_ascii.c:199-221 | the characters of an ASCII read command, refused exactly for a negative start |
| Requests.BuildAsciiWriteWordCoreCommand | melsec_mc_net/melsec_mc_ascii.c:223-276 | the characters of an ASCII word write, refused exactly for empty data, half words or a negative start |
| Requests.BuildAsciiWriteBitCoreCommand | melsec_mc_net/melsec_mc_ascii.c:278-314 | the characters of an ASCII bit write, refused exactly for no data or a negative start |
| Decoding.BinaryCoreSays | melsec_mc_net/melsec_helper.c:15-237 | for every request, in range or not, a binary command says its action, its device, the low 24 bits of the start, the low 16 bits of the count, and its data with one nibble of 0 or 1 a bit |
| Decoding.AsciiCoreSays | melsec_mc_net/melsec_mc_ascii.c:199-314 | for every request that is not refused, an ASCII command says its action, its device, the first six digits of the start in the device's base, the low 16 bits of the count, and its data |
| Framing.PackMcCommand | melsec_mc_net/melsec_mc_bin.c:811-855 | the binary packer fills header and core in place, with the timer 0x000A, and refuses exactly the empty core |
| Framing.PackMcAsciiCommand | melsec_mc_net/melsec_mc_ascii.c:374-420 | the same for the ASCII packer, with the timer "0010" |
| Framing.PackedIsFrame | melsec_mc_net/melsec_mc_bin.c:843-844 | what a packer emits is one frame by its own length field exactly when the core has at most 65533 bytes (binary) or 65531 (ASCII) |
| Framing.HeaderMeans | melsec_mc_net/melsec_mc_bin.c:906-930 | the readers take 11 bytes or 18 characters of header, and accept a declared length from 2 or 4 on |
| Devices.CodesAreBijective | melsec_mc_net/melsec_mc_comm.c:32-192 | the 22 binary codes and the 22 ASCII codes are each in bijection with the devices |
| Devices.BasesAndKinds | melsec_mc_net/melsec_mc_comm.c:32-192 | base 16 exactly for X, Y, W, B and ZR, and no bit device exactly W, SN, ZR and Z |
| Decoding.MeansWhatWasAsked | docs/melsec_mc_bin_ascii协议api手册.md:122-164 | a built and packed frame decodes, by decoders written from the 3E format, to the request it was built for if and only if start, count and data are in range: start below 2^24 in binary and six digits of the device's base in ASCII, 32761 or 16377 words written, counts of 16 bits, and in binary no bit set at an odd index in the upper half |
| Decoding.SameRequest | melsec_mc_net/melsec_mc_ascii.c:199-314 | within both ranges the two encodings denote one and the same request: network, station, command, subcommand, device, start, count and data |
| Decoding.EncodersAreInjective | melsec_mc_net/melsec_mc_bin.c:811-855 | no two requests in range share a frame |
| Decoding.UnswappedMeansOtherWords | docs/melsec_mc_bin_ascii协议api手册.md:166-178 | data encoded without the word swap denotes the byte-swapped words, so it denotes the data itself only if every word has two equal bytes |
| EndToEnd.ReadAnswered | melsec_mc_net/melsec_mc_bin.c:349-400 | a word read in range returns SUCCESS and the words of the memory if it asks for at most 32766 words (binary) or 16382 (ASCII), and otherwise FAILED |
| EndToEnd.UnknownIsRefused | melsec_mc_net/melsec_mc_ascii.c:471-482 | a frame that the PLC cannot decode changes nothing, and its answer gives FAILED to every kind of call |
| EndToEnd.WriteThenRead | melsec_mc_net/melsec_mc_bin.c:349-528 | word data within the ranges written through either client and read through either, over streams cut anywhere: both calls succeed, the same data comes back, nothing else has changed |
| EndToEnd.TypedArraysComeBack | melsec_mc_net/melsec_mc_bin_batch.c:100-266 | the same for arrays of 16-, 32- and 64-bit integers, signed and unsigned, of every length in range |
| EndToEnd.TypedArraysStored | melsec_mc_net/melsec_mc_bin_batch.c:209-266 | in the memory of the PLC such an array is its values in two's complement, low word first, one value after the other |
| EndToEnd.FlagsAnswered | melsec_mc_net/melsec_mc_bin.c:255-320 | a bit read in range returns SUCCESS and the bits of the memory if it asks for at most 65535 points (binary) or 65531 (ASCII), and otherwise FAILED |
| EndToEnd.WriteThenReadFlags | melsec_mc_net/melsec_mc_bin.c:255-469 | at most 65535 bits (binary) or 65511 (ASCII) written through one client, and read through either if at most 65535 (binary) or 65531 (ASCII), come back exactly when the writer is the ASCII client or no bit is set at an odd index in the upper half |
| Serialized.OneOrderForAll | README.md:246 | with one PLC behind any number of connections and threads, what a successful transaction returned is the answer to its own request at its own place in the one order in which the PLC served all requests, each from the memory the earlier ones left |
| Linearizability.OwnPlace | README.md:246 | two successful transactions of a run, of one thread or of two, returned at one time or at two, have the same place exactly when they are the same transaction |
| Linearizability.OrderRespectsRealTime | README.md:246 | a transaction that returned before another began, on whatever threads and connections, has the earlier place |
| Linearizability.Linearizable | README.md:246 | the three together: every successful transaction on a sound stream takes effect at one place of its own in the one order, answered from the memory that the earlier requests left, and the order respects real time |
| Serialized.SystemNeverStuck | melsec_mc_net/melsec_mc_bin.c:74-109 | with the PLC serving from its memory the system never blocks: while a thread is in a call there is a next step |
| Serialized.ReadsSeeEarlierWrites | README.md:246 | in every interleaving, a successful word read parses to what the requests served before it had written at the places this thread asked for |
| Receiving.RecvExactContract | melsec_mc_net/melsec_mc_bin.c:152-178 | for every script of receive outcomes, n bytes are returned exactly when n bytes arrive, the rest stays in the stream, and a failure is the one that ended the stream |
| Receiving.Connection.RecvExactInto | melsec_mc_net/melsec_mc_bin.c:152-178 | the receive loop fills the caller's buffer with just those bytes, and ends |
| Receiving.ExactFraming | melsec_mc_net/melsec_mc_bin.c:906-964 | a response reader succeeds exactly when the stream starts with a whole frame and memory is there; it consumes that frame and not a byte more, and each failure code means what it says |
| Receiving.FramesReadBack | melsec_mc_net/melsec_mc_ascii.c:422-469 | k frames on a stream cut anywhere are read back as those k frames in order, ending on the boundary |
| Receiving.Connection.ReadResponseFrame | melsec_mc_net/melsec_mc_bin.c:906-964 | the reader with its buffers does what ExactFraming describes |
| Responses.ReaderAndParserAgree | melsec_mc_net/melsec_helper.c:460-519 | on every frame the reader accepts, the 16-bit subtraction does not wrap, the copy is exactly the rest of the frame, and SUCCESS means both end code bytes are zero |
| Responses.BinaryCodes | melsec_mc_net/melsec_helper.c:460-519 | both binary parsers give FAILED for every end code but zero and for a length field that disagrees with the response, INVALID_PARAMETER for no response |
| Responses.ParseReadResponse | melsec_mc_net/melsec_helper.c:460-488 | the parser's result and copied data, for every response and whether or not memory is there |
| Responses.ParseAsciiReadResponse | melsec_mc_net/melsec_mc_ascii.c:485-548 | the ASCII parser: end code, flags, hex decoding and word swap in place; on every refusal, allocation failure included, the output is left cleared |
| Responses.AsciiEndCodes | melsec_mc_net/melsec_mc_ascii.c:471-482 | FAILED for every end code of four hex digits but 0000, RESPONSE_HEADER_FAILED if one is no hex digit |
| Responses.AsciiReadCodes | melsec_mc_net/melsec_mc_ascii.c:485-548 | the code of the ASCII parser for every response |
| Responses.AsciiWordData | melsec_mc_net/melsec_mc_ascii.c:519-546 | the bytes it returns are those of the text, swapped back if they are whole words |
| Responses.WordDataComesBack | melsec_mc_net/melsec_mc_ascii.c:233-246 | data swapped and hex encoded as the client does is what the parser returns |
| Responses.RefusesExactlyNonHex | melsec_mc_net/melsec_mc_ascii.c:519-536 | word data is refused exactly for an odd count of characters or a character that is no hex digit |
| Responses.CaseOfDataDoesNotMatter | melsec_mc_net/melsec_mc_ascii.c:316-344 | lower-case digits decode as upper-case ones |
| Hex.SwapWords | melsec_mc_net/melsec_mc_ascii.c:239-244 | the in-place loop exchanges the bytes of every word |
| Hex.SwapIsInvolution | melsec_mc_net/melsec_mc_ascii.c:538-543 | swapping twice is the identity |
| Hex.EncodeArray | melsec_mc_net/melsec_helper.c:367-386 | the hex encoding loop |
| Hex.BytesRoundTrip | melsec_mc_net/melsec_helper.c:367-386 | hex decoding undoes hex encoding on all byte strings |
| Hex.EncodesBackInUpperCase | melsec_mc_net/melsec_mc_ascii.c:330-344 | encoding what was decoded gives the text in upper case, so only case is lost |
| Sending.RetryContract | melsec_mc_net/melsec_mc_bin.c:121-139 | for every script of send outcomes, success puts proper prefixes of the message and then the whole message on the wire, failure only proper prefixes; at most 3 * (retry_count + 1) writes, all of them on failure, and at most retry_count sleeps |
| Sending.ThreeToAnAttempt | melsec_mc_net/melsec_mc_bin.c:121-135 | three writes an attempt, and one sleep between an attempt that failed and the next |
| Sending.Socket.SendWithRetry | melsec_mc_net/melsec_mc_bin.c:121-139 | the nested loops do that, on the socket and on both counters |
| Sending.Socket.TrySendMsg | melsec_mc_net/melsec_helper.c:521-542 | three writes at most, stopping at the first that succeeds; an empty message fails three times and sends nothing |
| Sending.Socket.WriteMsg | melsec_mc_net/socket.c:39-82 | the partial-write loop sends a prefix and reports success exactly for the whole message |
| ConfigTable.ConnectionConfigs.AddConnectionConfig | melsec_mc_net/socket.c:239-258 | adding refines a bounded map and fails, changing nothing, exactly when the descriptor is new and 32 are in use |
| ConfigTable.ConnectionConfigs.RemoveConnectionConfig | melsec_mc_net/socket.c:261-266 | removing takes the descriptor out of the map |
| ConfigTable.ConnectionConfigs.GetCommConfig | melsec_mc_net/socket.c:321-337 | the settings in the map, or the default of 3 retries, 500 ms apart, with timeouts of 5 s |
| ConfigTable.LastAddedWins | melsec_mc_net/socket.c:229-337 | after any run, a lookup gives the settings of the last call about the connection if that was an accepted addition, and else the default |
| ConfigTable.UntouchedIsDefault | melsec_mc_net/socket.c:321-337 | a connection that no call of the run was about has the default settings |
| ConfigTable.RunAnswers | melsec_mc_net/socket.c:229-337 | both, for runs over the 32 slots themselves, in which no two in use ever name the same connection |
| ConfigTable.FullIsFull | melsec_mc_net/socket.c:248-257 | no free slot is left exactly when the map has 32 entries |
| AddressText.AddressData.AnalysisAddress | melsec_mc_net/melsec_mc_comm.c:26-195 | the parser refuses exactly the empty text, clears the out structure, and fills it with the device's row and the start; for letters that name no device the row stays cleared, and T and C still leave a number read in base 0 |
| AddressText.AddressMeans | melsec_mc_net/melsec_mc_comm.c:20-195 | letters of a device in either case and a number of any length in its base, decimal or hexadecimal, parse to the device, and to the number exactly when it is below 2^31 |
| AddressText.PrefixExactly | melsec_mc_net/melsec_mc_comm.c:32-192 | text names a device exactly when it starts with its letters and with no longer letters of a device |
| AddressText.StrtolReads | melsec_mc_net/melsec_mc_comm.c:20-24 | for every text strtol gives the digits after white space, sign and 0x, up to the first other character, within the range of a 64-bit long |
| AddressText.CastKeepsLowBits | melsec_mc_net/melsec_mc_comm.c:20-24 | the cast keeps the low 32 bits, and the value exactly when it fits |
| AddressText.PrefixUnambiguous | melsec_mc_net/melsec_mc_comm.c:110-153 | letters of either case followed by a digit of the device's base name that device and no other |
| AddressText.AddressRoundTrip | melsec_mc_net/melsec_mc_comm.c:20-195 | letters and printed number of any device parse back to that device, and to the start exactly when it has at most six digits |
| AddressText.PrintedValue | melsec_mc_net/melsec_mc_ascii.c:179-197 | above that range the printer keeps the leading six digits |
| BoolPacking.TransBoolArrayToByteData | melsec_mc_net/melsec_helper.c:406-434 | the packing loop as written, and the value of both nibbles of every byte |
| BoolPacking.ExtractActualBoolData | melsec_mc_net/melsec_mc_bin.c:861-897 | the unpacking loop, and what its masks pick from every byte |
| BoolPacking.NibbleMasks | melsec_mc_net/melsec_mc_bin.c:883-891 | the masks of that loop are the lowest bits of the two nibbles |
| BoolPacking.PackedNibbles | melsec_mc_net/melsec_helper.c:417-426 | each value is 0 or 1 in a nibble of its own, the first of a pair in the high one |
| BoolPacking.AsWritten | melsec_mc_net/melsec_helper.c:417-426 | bit k of n comes back set exactly when it was set and k is even or below ceil(n/2) |
| BoolPacking.ComesBackExactly | melsec_mc_net/melsec_helper.c:422 | a list comes back exactly when no value is set at an odd index in its upper half |
| BoolPacking.LosslessLengths | melsec_mc_net/melsec_helper.c:422 | every list of n values comes back exactly for n in {0, 1, 3} |
| BoolPacking.GuardedComesBack | melsec_mc_net/melsec_helper.c:422 | comparing with the number of values instead, every list comes back, padded to an even count |
| Bytes.CodecRoundTrip | melsec_mc_net/utill.c:10-118 | decoding undoes encoding for every value of every width, signed and unsigned |
| Bytes.LEofFromLE | melsec_mc_net/utill.c:10-118 | encoding undoes decoding for every byte string |
| Bytes.LEAt | melsec_mc_net/utill.c:10-106 | byte i of an encoded value is the i-th from its low end |
| TypedArrays.ShortToBytes | melsec_mc_net/utill.c:10-28 | the two bytes, in place, everything around untouched |
| TypedArrays.IntToBytes | melsec_mc_net/utill.c:36-60 | the same for four |
| TypedArrays.BigIntToBytes | melsec_mc_net/utill.c:70-106 | the same for eight |
| TypedArrays.BytesToShort | melsec_mc_net/utill.c:17-34 | the signed or unsigned value of two bytes |
| TypedArrays.BytesToInt32 | melsec_mc_net/utill.c:45-68 | of four |
| TypedArrays.BytesToBigInt | melsec_mc_net/utill.c:83-118 | of eight |
| TypedArrays.ShortsToBytes | melsec_mc_net/melsec_mc_bin_batch.c:209-236 | the 16-bit batch write lays the values out one after the other |
| TypedArrays.Int32sToBytes | melsec_mc_net/melsec_mc_bin_batch.c:239-266 | the 32-bit batch write |
| TypedArrays.ShortsFromBytes | melsec_mc_net/melsec_mc_bin_batch.c:46-70 | the 16-bit batch read fills the caller's array, or leaves it alone if data is short |
| TypedArrays.Int32sFromBytes | melsec_mc_net/melsec_mc_bin_batch.c:100-124 | the 32-bit batch read |
| TypedArrays.EncodedAt | melsec_mc_net/melsec_mc_bin_batch.c:209-266 | the values of an array lie one after the other, each low byte first |
| TypedArrays.ArraysRoundTrip | melsec_mc_net/melsec_mc_bin_batch.c:100-266 | every array of values of the type is recovered from its bytes |
| Itoa.Itoa | melsec_mc_net/utill.c:142-201 | itoa writes the text and its terminator and nothing behind it, through a 66-byte local buffer, and ends, for every radix of magnitude at least 2 |
| Itoa.ReadsBack | melsec_mc_net/utill.c:142-201 | the text evaluates back to the value, read as signed for a negative radix, for radix magnitudes 2 to 36 |
| Itoa.GlyphsInOrder | melsec_mc_net/utill.c:188-194 | the characters of digits: 0 to 9, then from A on in the order of ASCII up to the 80th, then unshifted, since the comparison is of signed chars |
| Itoa.TextDeterminesValue | melsec_mc_net/utill.c:142-201 | for radix magnitudes up to 80, and no further, two values with the same text are the same |
| Itoa.BufferBound | melsec_mc_net/utill.c:143-144 | 66 bytes always suffice, and the minimum value at radix -2 needs all 66 |
| Itoa.MasksAndShifts | melsec_mc_net/utill.c:163-189 | the masks and shifts of the specialised loops are the remainders and quotients of the general one |

## Left out

- TransactionTheorems.SuccessHoldsAnswer: says nothing about which bytes arrive on a garbled stream; there the PLC may have taken bytes nobody sent as a request, and what a reader finds depends on what the PLC makes of them.
- Transactions.BeginStep: only commands that fit the length field are started; Framing.PackedIsFrame says when that is.
- Transactions.PlcStep: the PLC answers complete requests with exactly one frame each; unsolicited or malformed data from a PLC is not modelled.
- Plc.Serve: the reference PLC has no limit on points other than the frame, no device ranges and no link between bit devices and the words that overlap them.
- Itoa.PushDigit: takes remainders and quotients where the C loops mask and shift; Itoa.MasksAndShifts is the connection.
- Itoa.Itoa: radix 0, 1, -1 and the least int are excluded, where the C code divides by zero, does not end, or overflows; char is taken as signed.
- TypedArrays.BytesToInt32: one method with a flag stands for the signed and the unsigned function, and sums stand for the bitwise ors of disjoint bytes; float and double are their 32- and 64-bit patterns.
- AddressText.AddressData.AnalysisAddress: the one-letter texts T and C are excluded; there the C code reads its number past the end of the text.
- Sockets, timeouts, connect and close, and the reuse of a descriptor after close; Winsock start-up.
- Failure of mutex lock and unlock calls, and pthread internals.
- `send` returning 0, which the C code treats by whatever errno was left from before.
- Heap ownership, and allocation failure outside the response readers and parsers; the binary builders' failed payload path releases a buffer twice.
- A descriptor used with both protocols, which would have two transaction mutexes.
- Remote run, stop, reset and type requests, and `mc_remote_stop` packing without the global mutex.
- The ASCII builders in melsec_helper.c, which the ASCII client does not use, and the CRC functions.
- Strings and scalar wrappers: they are batch calls of one value.
- Logging, error text and the stress test programs.
