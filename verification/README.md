# gofins: a verified model

gofins is a client for Omron's FINS protocol (Omron Cat. No. W342-E1-15) over UDP and TCP, together with a PLC
simulator. This project models the parts of it that hold state, race, wrap around or translate data, and proves what
they keep over every input and every run:

- the bulk read coalescer answers every request exactly once, and its answers are the direct reads they stand for;
- service-ID multiplexing gives every caller the answer to its own request, inside a window that is shown to be tight;
- the simulator's memory is "last write wins" over every run, and its network path and its in-process path agree;
- the header, command, framing and BCD codecs are round trips exactly where stated;
- the reconnect machine runs one reconnection at a time and keeps one transport, and when closing it can leak one;
- reconnect and retry delays follow their formula, and interceptor chains compose.

`dafny verify dfyconfig.toml` checks everything.

## Modules

| file | models | how |
|---|---|---|
| `Bytes.dfy` | Go's fixed-width integers and byte orders | subset types; every wrap is written out |
| `Driver.dfy` | headers, commands, responses (`driver.go`, `header.go`) | functions; the command builders are methods |
| `Bcd.dfy` | `encodeBCD`, `decodeBCD`, the overflow check | the loops are methods, specified by nibble strings |
| `Transport.dfy` | FINS/TCP framing and both frame readers | methods over an array and a reader object |
| `Server.dfy`, `MemoryLaws.dfy` | the simulator's areas and handler, and where accesses land | a class over ten buffers, specified by a memory value |
| `Clients.dfy`, `ClientWrites.dfy`, `ClientObjects.dfy` | the inline client and the network client | two classes; the laws compare their specifications and the memory they leave |
| `TcpServer.dfy` | the simulator's TCP connection loop | a class; the laws hold for any request service |
| `Multiplexer.dfy`, `Answers.dfy` | service IDs, response channels, the network | a class for the table, a step machine for the protocol |
| `Coalescer.dfy`, `CoalescerLaws.dfy`, `CoalescerMerging.dfy` | the bulk read coalescer | a class over an array batch, specified by an event machine |
| `Backoff.dfy` | the reconnect loop and the retry interceptors | methods specified by delay recurrences |
| `Reconnect.dfy`, `ReconnectRuns.dfy` | goroutines racing to reconnect and to close | a step machine |
| `Interceptors.dfy` | interceptor chains and the coalescer's skip mark | functions over functions |

A Go run-time panic (a slice expression out of range) is an outcome of its own: `None`, `Panic` or `Crash`. So the
laws cover the inputs on which the code panics too, and say which they are: `Clients.ReadWordsOutcome`,
`Clients.WireWriteIsWrite`, `TcpServer.ServeAnswersWhen`, `MemoryLaws.AnswerExactWhen`.

Things the network, the clock and other code decide are parameters or events: what a backend read returns, whether a
dial succeeds, which message is delayed, lost or repeated, what the clock shows.

## Where the code and its description differ

- `decodeHeader` (driver.go:140-147) means to read the message type from bit 6, but in Go `icf&1<<6` is `(icf&1)<<6`,
  which looks at bit 0. The model follows the code; `Driver.MessageTypeRightWhen` says for which bytes that is right,
  `Driver.HeaderRoundTripWhen` which headers survive.
- The simulator treats an address as a byte offset into its area (server.go:151), while FINS addresses count words.
  `MemoryLaws.WordsIndependentWhen` says exactly which accesses are independent; `MemoryLaws.NeighbouringWordsOverlap`
  is the smallest failure.
- The range check of the simulator is computed in uint16 (server.go:147, 163, 180, 197) and so is the end of a write's
  payload (server.go:266, 272). `Server.BoundsCheckExactWhen`, `Clients.WriteWordsAgreeWhen` and
  `Clients.WriteBitsAgreeWhen` say exactly when that matters for writes, `Clients.ReadWordsOutcome` for reads; `MemoryLaws.WrappedRangesMisjudged`,
  `Clients.LongestWordsDisagree` and `Clients.LongestBitsDisagree` show it.
- A coalesced request whose range reaches address 65535 gets "response too short" although a direct read works:
  `CoalescerLaws.CutOffWhen`, `CoalescerLaws.TopOfMemoryFailsWhenMerged`.
- `decodeBCD` accepts some numbers above 2^64 (driver.go:196-202): `Bcd.DecodeExactWhen`, `Bcd.DecodeMissesOverflow`.
- `Shutdown` is documented to stop reconnection attempts (client.go:356, README.md:630). An attempt past its checks goes
  on, and its transport is never closed: `Reconnect.ClosingLeaks` has the runs, `Reconnect.CloseLeaksWhen` and
  `Reconnect.ShutdownLeaksWhen` the exact conditions, and `Reconnect.IdleClosesCleanly` what a caller can check.
- The reconnect delay is meant to be capped at 30 seconds, but the first pause is the configured delay whatever its size
  (client.go:449-458), and the retry interceptor does the same (interceptor_retry.go:58-77): `Backoff.CappedWhen`,
  `Backoff.RetryCappedWhen`.

## Model

| member | source | states |
|---|---|---|
| CoalescerLaws.RepliesRefineDirectReads | plugin_coalescer.go:172-309 | in every run of admitted requests each reply is what it should be: cancelled if and only if the request was, the backend's error if it failed, else the direct read of the request's own range, wrap-around included, except that a read which returned n words is "too short" exactly for requests that end past them, and a full read exactly for a merged request whose address plus count reaches 65536 |
| CoalescerLaws.RepliesComeFromReads | plugin_coalescer.go:275-307 | every reply that is not a cancellation is cut, at the recorded offset, from a backend read issued at the same event for a batch with that request in it |
| CoalescerLaws.ExactlyOneReply | plugin_coalescer.go:180-232 | no request is answered twice, so no send finds its one-slot channel full; no pending request is answered; once idle every taken request has been answered |
| CoalescerLaws.RunConserves | plugin_coalescer.go:158-232 | after every run, also one cut short by Stop, answered plus pending requests are exactly the taken ones, as multisets |
| CoalescerLaws.TimerAnswersAll | plugin_coalescer.go:184-186 | when the timer fires, unless Stop came first, the replies sent so far are to exactly the requests that arrived, as multisets |
| CoalescerLaws.EveryArrivalIsTaken | plugin_coalescer.go:158-187 | until Stop every arriving request is taken from the queue, in order |
| CoalescerLaws.FlushAnswersBatch | plugin_coalescer.go:235-308 | the replies of one flush, cancelled ones included, are to the requests of its batch, each once |
| CoalescerLaws.ReadsCoverBatches | plugin_coalescer.go:200-230 | every backend read has one area, at most maxSpan words and maxBatch requests, contains every request that does not wrap, starts at one of them and, if none wraps, ends at one |
| CoalescerLaws.OpenBatchBelowLimits | plugin_coalescer.go:200-222 | a waiting batch has one area and lies within its bounds and maxBatch; merged, it spans fewer than maxSpan words |
| CoalescerLaws.CoalescingIsInvisible | plugin_coalescer.go:283-308 | if no request reaches 65536 and backend reads are full, every reply that is not a cancellation is the direct read |
| CoalescerMerging.ArrivalJoinsWhen | plugin_coalescer.go:200-230 | in every run of admitted requests an arrival joins the open batch if and only if there is room, the area is the same, and the hull of both, in plain integers, is ordered and spans at most maxSpan; below maxSpan nothing is issued or sent and the batch grows to the hull; at maxSpan one read of the hull is issued for the whole batch; otherwise one read for the old batch is issued and a new batch opened |
| CoalescerMerging.TimerFlushesBatch | plugin_coalescer.go:184-186 | the timer issues one read of the open batch's hull, none if all its requests are cancelled, and answers each request |
| CoalescerMerging.FirstArrivalOpensBatch | plugin_coalescer.go:163-178 | with no batch open an arrival, cancelled or not, opens one with its own bounds; nothing is read or answered |
| CoalescerMerging.CancelledArrivalIsAnswered | plugin_coalescer.go:192-198 | an arrival found cancelled is answered at once and changes nothing else |
| CoalescerMerging.DirectReadIs | plugin_coalescer.go:304-307 | a direct read is the memory word by word from the request's address on, continuing at 0 |
| CoalescerLaws.SliceIsDirect | plugin_coalescer.go:298-307 | slicing a read at the wrapped offset gives the direct read or "too short", whatever address wrapped |
| CoalescerLaws.CutOffWhen | plugin_coalescer.go:200-203 | a slice runs past a full read if and only if its request is merged with others and wraps |
| CoalescerLaws.TopOfMemoryFailsWhenMerged | plugin_coalescer.go:298-303 | six words from 65530 read alone succeed; merged with two words at the same address they are "too short" |
| CoalescerLaws.MergeKeepsHull | plugin_coalescer.go:211-217 | accepting a request keeps an unwrapped hull of at most maxSpan words around every address and end |
| CoalescerLaws.HullCovers | plugin_coalescer.go:249-275 | the read of a hull covers its batch within the limits |
| Coalescer.BulkReadCoalescer.FlushBatch | plugin_coalescer.go:235-309 | the in-place filter, the read and the reply loop send and issue exactly what the flush of the original batch says, though the filter overwrites the batch |
| Coalescer.BulkReadCoalescer.FilterBatch | plugin_coalescer.go:236-244 | the loop over the shared array leaves the active requests in front, in order, and answers the cancelled ones |
| Coalescer.BulkReadCoalescer.SendSlices | plugin_coalescer.go:292-308 | the reply loop sends each active request its error or its own slice, in order |
| Coalescer.BulkReadCoalescer.Join | plugin_coalescer.go:188-230 | an arriving request is refused, starts a new batch, or joins and possibly flushes, as the event machine says |
| Coalescer.BulkReadCoalescer.ProcessBatch | plugin_coalescer.go:172-233 | the batching loop refines the event machine from its first request until it returns |
| Coalescer.BulkReadCoalescer.Run | plugin_coalescer.go:158-170 | the whole goroutine refines the event machine: same replies, same reads, same final phase |
| Multiplexer.AnswersAreCongruent | client.go:847-906 | whatever the network delays, loses, reorders or repeats, a received answer was made for an allocation congruent to the caller's modulo 256, with its service ID and swapped addresses |
| Multiplexer.AnswersAreOwn | client.go:861-906 | if deliveries and look-ups come before 256 later allocations, the answer received is to the caller's own request, with duplicates and losses |
| Answers.CallersGetTheirAnswers | client.go:861-906 | inside the window the answer caller k receives decodes to its own service ID and swapped addresses, the code its own command starts with, and the end code and data of an answer the server made to that command |
| Answers.RequestsCarryCommands | client.go:870-872 | in every run each request under way is its allocation's header followed byte for byte by the command given for it |
| Answers.AnswersCarryEchoes | client.go:976-989 | in every run, timely or not, a received answer carries the end code and data of an answer the server made to the request it is tagged with |
| Multiplexer.DeliveryNeverDrops | client.go:976-989 | inside the window and without duplicates delivery finds the request's own, empty channel, so the drop branches are never taken |
| Answers.DeliveryFillsOneEmptySlot | client.go:979-987 | a delivery puts the response in the latest channel of its service ID exactly when that is empty; a channel that holds a response keeps it, and every other channel is unchanged |
| Answers.PickUpEmptiesSlot | client.go:885-886 | a caller takes the one response of its channel and leaves it empty |
| Multiplexer.LateAnswerGoesAstray | client.go:847-859 | the window is tight: a run without repeats, timely up to its one late delivery, which comes with 257 allocations made instead of 256, gives caller 256 the answer to request 0 |
| Multiplexer.HolderIsLatest | client.go:853-856 | the channel under a service ID is the latest one made for it |
| Multiplexer.HolderIsOwnWhen | client.go:877-880 | an allocation finds its own channel if and only if at most 256 allocations, its own included, were made since |
| Multiplexer.EchoIsResponse | header.go:37-40 | any response the server makes to a client's frame decodes to that request's service ID with swapped addresses |
| Multiplexer.RunKeepsInv | client.go:841-906 | every interleaving keeps one-slot channels and only congruent answers in channels, callers and network |
| Multiplexer.TimelyRunIsExact | client.go:841-906 | inside the window every channel holds and every caller waits for its own answer only |
| Multiplexer.OnceRunIsSingle | client.go:976-989 | without duplicates at most one message is under way for a request, and then its channel is empty |
| Multiplexer.Client.IncrementSid | client.go:847-859 | the byte counter with its wrap gives allocation k the ID k+1 modulo 256 and a fresh channel; old channels keep their contents |
| Multiplexer.Client.LookUp | client.go:877-880 | the table returns the latest channel made for an ID, or none |
| Multiplexer.Client.Deliver | client.go:976-989 | for every payload: the non-blocking send fills the slot of the channel found under the response's ID, or changes nothing; an empty payload is skipped and one shorter than 14 bytes panics |
| MemoryLaws.LastWriteWins | server.go:156-204 | after any run of commands, wrapped, refused and panicking ones included, every byte of every area is the last value written over it, or 0 |
| MemoryLaws.StepStores | server.go:158-204 | one command, whatever its range, changes exactly the cells of the window its bounds leave, as far as its payload goes, in its own area |
| MemoryLaws.ConformingWindow | server.go:147-151 | that window is the command's own range if it fits, and empty otherwise, unless the end of the range wraps back into the area |
| MemoryLaws.ReadReturnsLastWrites | server.go:142-187 | a read that fits returns, after any run, exactly the last writes over its range |
| MemoryLaws.WindowReturnsLastWrites | server.go:142-187 | so does any other read that is granted, over its window |
| MemoryLaws.AnswerExactWhen | server.go:142-204 | for every command: the end code is normal exactly for ranges that fit an area the simulator has, if and only if the area is missing or the end of the range does not wrap back into it; missing areas and ranges that do not fit get their own end codes and change nothing |
| MemoryLaws.WrappedRangesMisjudged | server.go:147-151 | it does not at a read of 32768 words from 0, which is normal and empty, nor at one bit at 65535, which panics |
| MemoryLaws.NeighbouringWordsOverlap | server.go:151 | the smallest case: words written at 100 and then 101 share a byte |
| MemoryLaws.WordsIndependentWhen | server.go:151-167 | n words at a and k words at b are independent, for all payloads, if and only if a + 2n <= b or b + 2k <= a, not at the distance of a word address |
| MemoryLaws.WordsSurviveWhen | server.go:151-167 | for every memory, area, ranges and payloads, words written at a are read back after a write at b if and only if the payloads agree on the bytes both ranges cover |
| MemoryLaws.OneWordSurvivesWhen | server.go:151-167 | for single words: two addresses apart, or the same word, or neighbours that share the right byte |
| MemoryLaws.BitsLand | server.go:191-204 | a fitting write of n bits puts byte k at address plus bit offset plus k and leaves every other byte of every area |
| MemoryLaws.BitsComeFrom | server.go:174-187 | a fitting read of n bits returns the n bytes from address plus bit offset on |
| MemoryLaws.BitsIndependentWhen | server.go:179-201 | single bits at (a, i) and (b, j) are independent, for all values, if and only if a + i and b + j differ |
| MemoryLaws.WordsLand | server.go:158-170 | a fitting write of n words puts its 2n bytes from the address on and leaves every other byte of every area |
| MemoryLaws.WordsComeFrom | server.go:142-154 | a fitting read of n words returns the 2n bytes from the address on |
| Server.BoundsCheckExactWhen | server.go:197-199 | the uint16 check grants exactly the ranges that fit if and only if their end fits 16 bits or wraps past the area size |
| Server.Server.constructor | server.go:56-74 | ten separate zeroed buffers |
| Server.Server.ReadWords | server.go:142-154 | over the real buffers: the bytes LastWriteWins accounts for, a refusal, or the panic of the slice, by the wrapped bounds; nothing changes |
| Server.Server.WriteWords | server.go:158-170 | the ten buffers afterwards hold the memory value after the write, one area changed in place and nine kept; the end code is its answer |
| Server.Server.ReadBits | server.go:174-187 | as ReadWords, the bit offset added in uint16 |
| Server.Server.WriteBits | server.go:191-204 | as WriteWords, the bit offset added in uint16 |
| Server.Server.Handler | server.go:253-287 | dispatch, payload slice and response of one request; contents and response as on the memory value |
| Server.Server.ServeFrame | server.go:358-360 | decoding, handling and encoding one frame |
| Clients.ReadWordsAgree | inline_client.go:58-90 | for every input a word read gives the same words, end code, area error or panic directly and over the wire, and the wire leaves the memory as it was |
| Clients.ReadWordsOutcome | client.go:826-836 | on both paths a word read panics, in the simulator or in the client on a short answer, if and only if the end of its range wraps back into the area; it returns words if and only if the range fits |
| Clients.ReadBytesOutcome | server.go:147-151 | on both paths a raw read panics if and only if the simulator's slice does, and returns bytes, twice the count modulo 2^16, if and only if the wrapped bounds are granted |
| Clients.ReadBitsOutcome | server.go:179-184 | the same for bit reads |
| Clients.ReadBytesAgree | inline_client.go:92-119 | the same for raw reads, memory included |
| Clients.ReadBitsAgree | inline_client.go:133-165 | the same for bit reads, memory included, though their loops differ |
| Clients.BitsAreWhole | server.go:174-187 | a successful bit read returns as many bits as asked for, wrapped or not |
| Clients.WriteWordsAgreeWhen | inline_client.go:182-208 | both paths leave the same memory and outcome if and only if the word count is not 32765 to 32767, or the simulator panics anyway |
| Clients.LongestWordsDisagree | server.go:266 | any 32765 words at the start of the data memory make the handler panic, while the direct path reports a range error |
| Clients.WriteBitsAgreeWhen | inline_client.go:258-289 | the same for bit writes: agreement if and only if fewer than 65530 bits, or a panic anyway |
| Clients.LongestBitsDisagree | server.go:272 | any 65530 bits at the start of the data memory do the same |
| Clients.ExchangeIsHandle | client.go:861-876 | encoding, framing and decoding both ways around the handler amount to the handler, for every command below 2^31 bytes |
| Clients.WireReadIsRead | client.go:826-831 | a read command over the wire is the read, and the memory afterwards is the memory before |
| Clients.WireReadKeepsMemory | server.go:257-264 | that holds whatever the clock and the connection do to the answer |
| Clients.WireWriteIsWrite | server.go:266-272 | a write command over the wire is the write of its payload, or the handler's panic exactly when 6 plus the size wraps |
| Clients.WordsWrittenAreRead | client.go:684-688 | words written inside an area come back as they were, either byte order, either path |
| ClientWrites.BitsWrittenAreRead | client.go:729-764 | bits that fit come back as they were by both paths; in between each is a byte 1 or 0 at address plus bit offset plus its position, and no other byte has changed |
| ClientWrites.WordsWrittenAreStored | client.go:666-694 | words that fit are at their address, high byte first or last as the byte order says, by both paths, and no other byte has changed |
| ClientWrites.StringWrittenIsStored | client.go:697-712 | a string that fits is at its address, with one NUL after it if its length is odd, by both paths, and no other byte has changed |
| ClientWrites.WordReadsRefusedWhen | client.go:993-1001 | word and string reads are refused exactly for areas other than the DM, work, holding and auxiliary word areas |
| ClientWrites.WordWritesRefusedWhen | client.go:993-1001 | the same for word writes, which then change nothing |
| ClientWrites.StringWritesRefusedWhen | client.go:993-1001 | the same for string writes |
| ClientWrites.BitAreasRefusedWhen | client.go:1003-1011 | bit operations are refused exactly for areas other than the four bit areas |
| Clients.StringsWrittenAreRead | client.go:697-712 | a string that fits comes back up to its first NUL by both paths, so whole if and only if it has none, odd or even length |
| Clients.WriteStringAgreesWhen | inline_client.go:210-233 | for strings of any length a frame can carry both paths leave the same memory and outcome if and only if 6 plus the doubled word count, modulo 2^16, does not wrap, or the simulator panics anyway |
| Clients.WordsRoundTrip | client.go:833-836 | the byte-order loops are inverse |
| Clients.FillWords | client.go:833-836 | the decoding loop computes the words, or panics on a short answer |
| Clients.FillBits | client.go:619-622 | the bit loop computes the bits, or panics on a short answer |
| Clients.FillBitsOver | inline_client.go:154-157 | the loop over the raw answer computes the bits, or panics on a long answer |
| Clients.PackWords | client.go:682-687 | the encoding loop packs the first uint16(len) words, or panics when twice that wraps |
| ClientObjects.InlineClient.ReadWords | inline_client.go:58-90 | the method over the real buffers returns the direct read that ReadWordsAgree compares with the wire; nothing changes |
| ClientObjects.InlineClient.ReadBits | inline_client.go:133-165 | the same for bits, the loop over the raw answer included (ReadBitsAgree) |
| ClientObjects.InlineClient.WriteWords | inline_client.go:182-208 | the method changes the real buffers to the memory, and returns the outcome, that WriteWordsAgreeWhen compares with the wire |
| ClientObjects.InlineClient.WriteString | inline_client.go:210-233 | the same for strings (StringsWrittenAreRead) |
| ClientObjects.InlineClient.WriteBits | inline_client.go:258-289 | the same for bits (WriteBitsAgreeWhen) |
| ClientObjects.Client.SendCommand | client.go:861-876 | the service ID is incremented modulo 256 first; the buffers and the response are those of the exchange under that ID, which ExchangeIsHandle reduces to the handler |
| ClientObjects.Client.ReadWords | client.go:817-839 | command, exchange, end code check and decoding loop over the real buffers give the wire read of ReadWordsAgree; the buffers are as before and the service ID has advanced by one, or not at all for a refused area |
| ClientObjects.Client.ReadString | client.go:581-591 | the same, cut at the first NUL (StringsWrittenAreRead), buffers and service ID included |
| ClientObjects.Client.ReadBits | client.go:594-631 | the same for bits (ReadBitsAgree), buffers and service ID included |
| ClientObjects.Client.ReadBytes | client.go:547-578 | the same for raw bytes (ReadBytesAgree), buffers and service ID included |
| ClientObjects.Client.WriteWords | client.go:666-694 | packing, command and exchange change the real buffers to the memory, and return the outcome, of the wire write in WriteWordsAgreeWhen; the service ID advances exactly when a command is sent |
| ClientObjects.Client.WriteString | client.go:697-712 | the same for strings (StringsWrittenAreRead), service ID included |
| ClientObjects.Client.WriteBits | client.go:729-764 | the same for bits (WriteBitsAgreeWhen), service ID included |
| TcpServer.Transcript | server.go:325-368 | for every service and every proper stream the output is one handshake reply and one response per data frame in order, with its service ID, command and swapped addresses; other frames produce nothing; parsing the output gives back those messages |
| TcpServer.SimulatorTranscript | server.go:325-368 | for every byte stream, from any memory: no output without a handshake frame first; else the handshake reply and one answer per data frame in order, up to the first frame that makes the simulator panic if there is one; the final memory, the end, and what a client parses from the output |
| TcpServer.TranscriptUpToPanic | server.go:347-367 | the same for any service that panics on a fixed set of bodies |
| TcpServer.SimulatorProperWhen | server.go:347-367 | which streams are proper for the simulator, decided by their bytes |
| TcpServer.SimulatorServesWhen | server.go:358-360 | a data frame is served in every state if and only if it is long enough and its command does not panic |
| TcpServer.ServeAnswersWhen | server.go:253-287 | the handler gets through a frame if and only if the frame is answerable, whatever the memory |
| TcpServer.RepliesPairUp | server.go:347-367 | replies and data frames pair up one to one, in order |
| TcpServer.Connection.Handle | server.go:325-345 | what the connection writes, leaves in memory and ends with, as a function of its input |
| TcpServer.Connection.Loop | server.go:347-367 | the same for the loop after the handshake |
| Transport.StreamRoundTrip | transport.go:158-225 | parsing the concatenated frames of any messages below 2^32 gives those messages in order and leaves nothing |
| Transport.StreamReserialises | transport.go:158-195 | every stream is the frames of the messages parsed from it, followed by what was not parsed |
| Transport.FrameRoundTripWhen | transport.go:217-225 | a frame followed by anything parses to its message and exactly its bytes if and only if its length field did not wrap |
| Transport.ParsedBytesReserialise | transport.go:190-194 | whatever parses is, byte for byte, the frame of its message |
| Transport.Reader.ReadFrame | transport.go:165-194 | the reader returns the parse of the remaining stream and is left exactly behind the frame |
| Transport.FinsTCPFrame | transport.go:217-225 | the buffer filled in place is the frame that FrameRoundTripWhen parses back |
| Transport.FrameBytes | transport.go:217-225 | every byte of a frame: FINS, the length from the command on in big-endian order, the command, four zeros, the body |
| Driver.HeaderRoundTripWhen | driver.go:137-171 | a header survives if and only if it is a command wanting a response or a response wanting none |
| Driver.MessageTypeRightWhen | driver.go:140-147 | for any ten received bytes the decoded message type is the one bit 6 says if and only if bits 0 and 6 are equal; for 0xc0 it is not |
| Driver.HeaderFieldsSurvive | driver.go:148-151 | whatever the header, everything but the message type survives |
| Driver.RequestRoundTrip | driver.go:103-109 | the server decodes a client's frame to its header, command code and data |
| Driver.ResponseRoundTripWhen | driver.go:111-129 | a response survives if and only if its header does |
| Driver.ResponseAnswers | header.go:37-40 | the response to any frame decodes as sent, same service ID, addresses swapped |
| Driver.CommandFrameBytes | driver.go:66-83 | every byte of a read or write command frame |
| Driver.ResponseFrameBytes | driver.go:120-129 | every byte of a response frame; its first is 0xc1 |
| Driver.DesignationRoundTrip | driver.go:91-101 | area, address, bit offset, item count and payload come back from a command's data |
| Driver.ReadCommand | driver.go:66-73 | the eight bytes written in place are the designation that DesignationRoundTrip decodes |
| Driver.WriteCommand | driver.go:75-83 | the same, followed by the payload |
| Bcd.RoundTrip | driver.go:173-226 | decoding the encoding of any uint64, 0 and odd digit counts included, gives it back with no step near overflow |
| Bcd.EncodeThenDecode | driver.go:173-226 | the same for the two routines themselves |
| Bcd.EncodeBCD | driver.go:173-194 | the bytes hold the decimal digits, padded by the terminator to whole bytes |
| Bcd.FillDigits | driver.go:188-192 | the backwards loop stores two digits a byte |
| Bcd.DecodeBCD | driver.go:204-226 | the decoder is the nibble-by-nibble scan, with its errors |
| Bcd.BadByteRejected | driver.go:204-224 | wherever decoding stands, a byte is rejected for its high digit first, then for its low one unless that is the terminator at the end |
| Bcd.TimesTenPlusExactWhen | driver.go:196-202 | the step is 10x+d or an overflow error, rightly, if and only if x is at most (2^64-1)/5 or the wrapped product still looks too large |
| Bcd.TimesTenPlusMissesOverflow | driver.go:198 | at x = 2^62 the overflow is missed |
| Bcd.DecodeExactWhen | driver.go:204-226 | for every byte string decoding is right if and only if every digit is read at an exact value of at most (2^64-1)/5, or some digit makes the check fire, both computed from the digits over unbounded integers; otherwise the right answer is overflow and the decoder misses it |
| Bcd.ScanOverflowsWhen | driver.go:196-226 | the decoder works on the decimal value cut to 64 bits, and reports overflow if and only if 5 times the cut value, or twice that plus the digit, is too large at some digit |
| Bcd.ExactScanIsDecimalValue | driver.go:204-226 | the right answer is the decimal value of the digits, or overflow at 2^64 |
| Bcd.DecodeMissesOverflow | driver.go:196-226 | ten bytes spelling 4 * 10^19 decode without an error |
| Reconnect.OneReconnectOneTransport | client.go:403-500 | in every interleaving `reconnecting` is true exactly while one goroutine is between its test-and-set and its reset, never two, and at most one transport is open, in c.tr or just dialled |
| Reconnect.RunKeepsInv | client.go:403-525 | the invariant behind it |
| ReconnectRuns.EveryDialIsChecked | client.go:425-500 | in every run each dial comes after a test of the closed flag that found it clear and then a test that found auto-reconnect on and retries left, both since the goroutine's previous dial |
| ReconnectRuns.FailedDialStartsOver | client.go:474-492 | after a failed dial both tests are made again before the next one |
| ReconnectRuns.OneDialAfterClose | client.go:427-429 | after the closed flag is set a goroutine dials at most once, so one whose dial failed opens nothing any more |
| ReconnectRuns.NoDialAfterEnd | client.go:403-446 | a goroutine that has dialled successfully, used up its retries, found auto-reconnect off, the client closed or another one reconnecting, or has left, never dials again |
| Reconnect.CloseLeaksWhen | client.go:332-354 | after any run, closing can leave a transport open that no later step of any goroutine closes, if and only if a goroutine is past its check of the closed flag, and has not stored its new transport, when the flag is set |
| Reconnect.LeftOpenIsLeaked | client.go:431-434 | a transport open after Close has returned and everybody has left stays open in every continuation, new goroutines included |
| Reconnect.IdleClosesCleanly | client.go:254-259 | a client that is not reconnecting when the flag is set, which a caller can ask, never leaks |
| Reconnect.ClosingLeaks | client.go:431-500 | two whole runs, one with Close and one with Shutdown, that end with everybody gone and a transport open that nothing closes any more |
| Reconnect.ShutdownLeaksWhen | client.go:356-363 | the same for Shutdown, if nobody changes the auto-reconnect setting again: if and only if a goroutine is past all its checks and replacing the transport |
| Reconnect.CleanStaysClean | client.go:431-441 | after the flag is set with no attempt under way, none starts and nothing stays open, whether or not the setting changes |
| Backoff.Reconnect | client.go:403-525 | the loop's outcome, number of dials and pauses; at most maxRetries dials, and it ends |
| Backoff.ReconnectDelayIs | client.go:449-458 | for every initial delay d the pause before attempt k is none if d is not positive, d for k = 2, then min(d * 2^(k-2), 30s), or none if doubling overflows |
| Backoff.CappedWhen | client.go:449-458 | for every initial delay no pause exceeds 30s if and only if the delay does not |
| Backoff.RetryWithBackoff | interceptor_retry.go:54-89 | calls stop at the first success or context error, after at most maxRetries+1; result and pauses |
| Backoff.RetryConditional | interceptor_retry.go:101-134 | the same with a constant pause, stopping also at an error not to be retried |
| Backoff.StoppedMeans | interceptor_retry.go:108-132 | which call is the last and what is returned, call by call: a success, an error in a finished context, an error not to be retried, or the last of maxRetries+1 errors |
| Backoff.RetryDelayIsWhen | interceptor_retry.go:73-84 | for every delay and cap, negative ones included, the pause after each later call is min(d * 2^i, cap) if and only if there is no positive cap, d is 0, d and the cap are both below 2^62 ns, or d is minus a power of two |
| Backoff.RetryCappedWhen | interceptor_retry.go:58-84 | no pause exceeds the cap if and only if the initial delay does not: the first one is not capped |
| Interceptors.ChainIsNested | interceptor.go:65-87 | running a chain is running the right-nested composition of its interceptors |
| Interceptors.ChainOfChains | interceptor.go:65-87 | chaining is associative for every base invoker |
| Interceptors.ChainIsExtensional | interceptor.go:74-86 | a chain depends on its invoker only through calls |
| Interceptors.FlushNeverReenters | plugin_coalescer.go:254-281 | a flush's read through a chain with the coalescer anywhere in it enqueues nothing, if the others pass the mark on |
| Interceptors.ChainKeepsMark | interceptor.go:74-86 | chains of interceptors that pass the mark on pass it on |
| Interceptors.CoalescerKeepsMark | plugin_coalescer.go:107-115 | the coalescer itself does |
| Interceptors.QueuedWhen | plugin_coalescer.go:105-147 | only an unmarked word read of 1 to maxSpan words is queued; any other operation leaves the queue alone and returns what the invoker returns under the mark |
| Interceptors.FreshContextReenters | plugin_coalescer.go:107-115 | that proviso is needed |

## Left out

- Sockets, dialling, deadlines, keep-alive, local addresses, write errors: a dial is an event that succeeds or fails; time is an event or a duration.
- UDP: datagrams arrive whole. A short UDP frame, which would let the decoder read stale bytes of the receive buffer, is modelled as a panic, as over TCP.
- Clients.WriteStringAgreesWhen: for strings below 2^31 bytes; a longer one would wrap the length field of a frame.
- The error code of received FINS/TCP frames (transport.go:152): every frame the library builds carries 0.
- Networked and inline WriteBytes: they send a byte count where a word count is expected; SetBit, ResetBit and ToggleBit: one-bit writes.
- ReadClock and encodeClock: the clock reading is a parameter of the simulator.
- Context and closed-client checks before an operation, and interceptors around the data paths: they only stop an operation before it starts.
- The handler's slice of a write payload is taken for both paths over the frame's own bytes; spare capacity behind a UDP frame is not modelled.
- Coalescer: the reply channel is a log of replies, append copies the batch array, deadlines of the combined read are part of the backend's outcome, and the caller's own select on admission and reply is not modelled.
- Coalescer: memory does not change during one flush; it may between flushes.
- Reconnect: triggerReconnect's checks before it starts a goroutine are dropped, so any start is allowed; the unsynchronised reads of c.tr are atomic steps.
- Liveness of the `connected` channel and closing of `listenErr` across racing listeners: an old listener can mark the client disconnected after a reconnect.
- Retry counts are unbounded integers; the log output of the retry loops is not modelled.
- Plugins, logging, metrics, tracing, validation, the watchdog, address parsing and end code texts: bookkeeping with no state to reason about.
