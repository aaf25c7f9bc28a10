# Verification of the go-http transport

A Dafny model of the transport layer of frankli0324/go-http and proofs about it: HTTP/2 flow control
and stream bookkeeping, the request body writer, header blocks, the chunked transfer coding,
HTTP/1.1 framing, sessions and pipelining, and the connection pool. `dafny verify dfyconfig.toml`
checks everything.

## How it is organised

Where the source updates objects in place there is a class whose methods do the same; where several
goroutines share state there is a step system on values, one step for each lock-protected region or
channel operation, and a step that would block changes nothing. A run is any sequence of steps, so a
statement about all runs covers every interleaving. The classes are tied to the step systems by a
ghost field that every method moves by one step.

- `Wrappers`, `Words`, `FlowControl`: optional values, 32-bit wrap-around, and the two window counters.
- `Http2Model`: one connection's windows, streams, settings and GOAWAY state, and what every step keeps.
  `Http2Connection` is the same connection as objects. `Http2Credit` adds up what was granted and what
  was taken along a run and compares the windows with the sums (RFC 9113, sections 6.9.1 and 6.9.2).
  `Http2Lifecycle` is about ids, release and the concurrency limit (sections 5.1.1 and 5.1.2).
- `Inbound`: the DATA handler's accounting and the window as an honest peer computes it.
- `BodyWriter`: WriteRequestBody, in place on its buffer. `HeaderBlocks`: HEADERS and CONTINUATION with
  concurrent openers, judged by a receiver that accepts or rejects the frames (sections 5.1.1 and 6.10).
  `HeaderTable`: the compression tables of both sides over the same runs (RFC 7541, section 2.3).
- `Bufio`: a connection that delivers pieces of any size, and the bufio.Reader before it.
  `ChunkedCoding`: the coding as functions on whole strings, with a one-shot decoder as reference.
  `ChunkedIO`: the writer and the incremental reader, proved against it (RFC 9112, section 7.1).
  `ChunkedGrammar`: what the decoder accepts, as a grammar over characters.
- `ListWalk`: walkReverse. `Framing`: where a response body ends (RFC 9112, section 6.3).
  `Http1Session`: Session.Read and responses back to back. `Pipeline`: the two loops of Conn.Setup.
- `PoolModel`: the pool as a step system. `NetPool`: Pool and state as objects.

What a caller or the network decides is a parameter or an arbitrary choice: reader behaviour, piece
sizes, buffer sizes, credit schedules, cancellation, framer errors, dial results, the clock. Assumed
of code outside the repository: the framer yields 24-bit lengths and 31-bit increments, and accepts
an initial window only up to 2^31-1 and a frame size only from 16384 to 2^24-1 (RFC 9113, sections
4.2, 6.5.2, 6.9); a connection read with room makes progress or fails, and a failed connection stays
failed; a writer that takes less than all of its data reports an error; the header parser consumes
exactly the header's bytes through the same buffered reader.

## Where the source falls short

Each of these is a proved lemma or part of a contract; the code is modelled as it is. Where a property
fails, the lemma named first says exactly when it holds.

- An initial-window increase that overflows a stream window is dropped silently (`IncreaseRefusedExactly`,
  `OverflowingIncreaseIsSilent`), where RFC 9113, section 6.9.2, asks for a connection error; the credit law
  carries the refused sum.
- A body writer does not look at whether its stream is finished. It goes on taking credit
  (`FinishedStreamsStillTake`), and as initial-window changes pass finished streams by, it can take more than
  the window in force grants, though only if that was lowered after the stream had finished
  (`TakesStayWithinCredit`, `FinishedStreamOverdraws`).
- A WINDOW_UPDATE that a padding refund triggers is never written, and DATA for a finished stream is never
  refunded; either can stall an obedient peer for good (`NoStall`, `PaddingStallsPeer`,
  `FinishedStreamStallsPeer`, `StallIsFinal`).
- Stream ids are not checked against 2^31: they fit exactly for the first 2^30 streams and come back after
  2^31 (`IdsIncrease`, `IdsWrap`).
- WriteRequestBody reaches its end only as `CanFinish` says: with the `last` flag, a declared size other than
  1024, and not an empty size for a body that is not or with a reader that reports no end to an empty buffer. It
  never returns a read error other than io.EOF: a body that can be read to its end is sent whatever else was
  reported, and one that cannot is read in vain for ever (`WriteRequestBody` with `ComesTo`).
- A header block given up after its first frame breaks the connection as soon as another frame is written
  (`BrokenExactly`, `AbandonedBlockBreaks`). One given up earlier, but after it was encoded, leaves the frames whole
  and the peer without the entries it added to the compression table, so that references to these mislead it
  (`DecodesExactly`, `CancelledBlockDesyncs`).
- The size of a header list is added up in a uint32 and compared modulo 2^32 (`EncodeHeaders`).
- A body of known length that the connection cuts short ends in a plain io.EOF (`ReadBody` and `ServeCutShort` say
  exactly when, `TwoOfFive` is an example).
- Framing departs from section 6.3 of RFC 9112 (`FollowsRfcExactly` says exactly where): it compares `chunked` with
  regard to case (`LetterCase`), takes an empty last element for a coding (`EmptyLastElement`), applies the rule on
  CONNECT after that on responses without a body and gives these a body if they carry a Transfer-Encoding
  (`ForbiddenBody`), overlooks an empty Transfer-Encoding (`EmptyTransferEncoding`), and refuses lengths that do not
  count (`UselessLengths`) or have an empty element, differing spellings or 2^63 or more (`EmptyLengthElement`).
- After a failed read only the next session is answered; a later one waits for a signal that never comes
  (`AnsweredExactly`, `StuckForEver`, `StuckIsReachable`). That takes callers that open several sessions on one Conn;
  the pool, which gives a Conn to one session at a time (`PoolSafety`), is safe from it (`AnsweredAlone`).
- A failed dial keeps its ticket; `maxConn` failures, and nothing else, end the pool (`ServedExactly`,
  `StarvedForEver`, `StarvationIsReachable`).

## Model

| member | source | states |
|---|---|---|
| FlowControl.Outflow.Pay | internal/transport/h2c/flow.go:78-85 | from a window that is not negative, the lesser of request and window, debited exactly; from a negative one the unsigned comparison makes nearly everything affordable |
| FlowControl.Outflow.Refund | internal/transport/h2c/flow.go:87-95 | the sign test on the wrapped sum accepts if and only if the mathematical sum fits in int32, and then stores that sum |
| FlowControl.DeltaIsSigned | internal/transport/h2c/conn.go:94-97 | the wrapped uint32 difference of two initial windows stands for their signed difference |
| FlowControl.Inflow.CheckAndPay | internal/transport/h2c/flow.go:32-38 | charges exactly when the window covers the amount |
| FlowControl.Inflow.Refund | internal/transport/h2c/flow.go:44-56 | queues below 4096, else moves the whole queue into the window and announces it; when it panics |
| Http2Connection.Connection.PayBoth | internal/transport/h2c/stream.go:156-169 | the take is exactly the least of request, stream window and connection window, debits both by it, and its give-back is never refused |
| Http2Connection.Connection.TakeOutflow | internal/transport/h2c/stream.go:156-169 | one take is one step of the model and gets the least of request and both windows; it waits exactly when a window is not positive |
| Http2Connection.Connection.CloseWithError | internal/transport/h2c/stream.go:61-71 | the first call closes and releases the stream, gives it its reason and breaks the response pipe with an error; a second call changes nothing |
| Http2Connection.Connection.Reset | internal/transport/h2c/stream.go:73-83 | marks the stream reset once and finishes it, with the reason; one of our own writes one RST_STREAM, and finishes the stream even if that fails |
| Http2Connection.Connection.ReleaseStreamID | internal/transport/h2c/conn.go:200-205 | removes the stream's id and nothing else from the active map |
| Http2Connection.Connection.AssignStreamID | internal/transport/h2c/conn.go:207-228 | the next odd id and the peer's initial window, entered in the active map; waits exactly at the peer's limit |
| Http2Connection.Connection.OnWindowUpdate | internal/transport/h2c/conn.go:128-144 | credits the right window by the increment; one that would pass 2^31-1 stays as it is, and ends the connection with FLOW_CONTROL_ERROR unless it had gone away, or resets the live stream with it, by one RST_STREAM |
| Http2Connection.Connection.ShiftWindows | internal/transport/h2c/conn.go:93-102 | every active stream, in whatever order, moves by the signed delta unless it cannot; no other stream moves |
| Http2Connection.Connection.OnSettings | internal/transport/h2c/conn.go:85-116 | entries take effect in order up to the first one that RFC 9113 refuses, which alone ends the connection, with FLOW_CONTROL_ERROR for an initial window and PROTOCOL_ERROR otherwise |
| Http2Connection.Connection.ApplySetting | internal/transport/h2c/controller/settings.go:94-113 | one entry: unknown ids ignored, windows moved before the new value is stored |
| Http2Connection.Connection.OnRemoteGoAway | internal/transport/h2c/conn.go:75-84 | on the first GOAWAY resets and drops exactly the active streams above its last id; on a later one nothing |
| Http2Connection.Connection.OnStreamReset | internal/transport/h2c/conn.go:68-74 | with an error code resets the stream if it is known and not done, with that reason and no RST_STREAM of our own; without one nothing |
| Http2Connection.Connection.OnStreamEnded | internal/transport/h2c/conn.go:61-64 | END_STREAM ends the body and closes the stream, without an error, if it is known and not done |
| Http2Model.NextKeeps | internal/transport/h2c/conn.go:75-144 | every step keeps: own ids, reset implies done, released once, active exactly if not done, connection window not negative, initial window minus stream window at most 2^31-1 |
| Http2Credit.ConnectionCreditLaw | internal/transport/h2c/conn.go:121-134 | in every run the connection window is 65535 plus accepted increments minus all bytes taken by all streams ever opened, so DATA never exceeds the credit granted |
| Http2Credit.StreamCreditLaw | internal/transport/h2c/conn.go:90-103 | in every run the window of every stream ever opened is the current initial window plus accepted increments minus bytes taken, refused increases (never negative) and changes missed once out of the active map (none while in it) |
| Http2Credit.MissedIsChange | internal/transport/h2c/conn.go:93-103 | what a stream has missed is the change of the initial window since it left the active map |
| Http2Credit.LeftForGood | internal/transport/h2c/conn.go:200-205 | a stream out of the active map stays out in every continuation, and the initial window it left under with it |
| Http2Credit.TakesStayWithinCredit | internal/transport/h2c/stream.go:156-169 | for every stream ever opened, a take keeps its total within the credit granted under the initial window in force if and only if it leaves in the window what that was lowered by since the stream left the active map, less refusals; so always if it was not lowered, as for an active stream |
| Http2Credit.FinishedStreamsStillTake | internal/transport/h2c/stream.go:156-169 | however a stream is finished, a take gets as much as before |
| Http2Credit.FinishedStreamOverdraws | internal/transport/h2c/stream.go:156-169 | a run in which an ended stream takes 65535 bytes under an initial window of zero |
| Http2Credit.DecreaseNeverRefused | internal/transport/h2c/conn.go:90-97 | in every reachable state any lower initial window is accepted by every active stream, and the window stays in int32 |
| Http2Credit.IncreaseRefusedExactly | internal/transport/h2c/flow.go:87-95 | an increase is dropped exactly when the raised window would pass 2^31-1, and then the stream is unchanged |
| Http2Credit.OverflowingIncreaseIsSilent | internal/transport/h2c/conn.go:96-98 | a concrete run in which an increase is dropped and the connection stays open |
| Http2Credit.SettingsApplied | internal/transport/h2c/controller/settings.go:94-113 | a frame is refused exactly if an entry is not acceptable; otherwise each known setting ends at its last value |
| Http2Credit.TakenStep | internal/transport/h2c/stream.go:161-168 | one event adds to the sum over all streams exactly what its taker got |
| Http2Lifecycle.IdsIncrease | internal/transport/h2c/conn.go:215-218 | every id is odd, greater than all before it for the first 2^31 streams, and fits 31 bits exactly for the first 2^30 |
| Http2Lifecycle.IdsWrap | internal/transport/h2c/conn.go:216-217 | for every stream a run in which the 2^31-th stream after it gets its id, and a stream after the first 2^30 an id outside 31 bits |
| Http2Lifecycle.IdsAreKept | internal/transport/h2c/conn.go:216 | a stream keeps its id, and stays done and reset once it is, in every continuation |
| Http2Lifecycle.ActiveIsAssignedAndNotDone | internal/transport/h2c/conn.go:200-218 | the active map holds an id if and only if some stream has it and is not done |
| Http2Lifecycle.ReleasedExactlyOnce | internal/transport/h2c/stream.go:61-83 | after any finishing event and any continuation, the stream is done, inactive and released exactly once |
| Http2Lifecycle.ResetExactly | internal/transport/h2c/stream.go:73-83 | a finishing event marks the stream reset if and only if it is a reset of ours, of the peer or by GOAWAY |
| Http2Lifecycle.GoAwaySparesLower | internal/transport/h2c/conn.go:77-82 | streams at or below the last id are untouched |
| Http2Lifecycle.OpenRespectsLimit | internal/transport/h2c/conn.go:209-219 | an open succeeds if and only if the active count is below the limit in force, and never takes it above |
| Http2Lifecycle.ConcurrencyIsBounded | internal/transport/h2c/conn.go:209-219 | in every run active streams never outnumber the highest limit that was in force |
| Http2Lifecycle.ConstantLimitHolds | internal/transport/h2c/conn.go:209-219 | a limit that does not change is an invariant |
| Inbound.Receiver.Charge | internal/transport/h2c/conn.go:38-45 | an overdrawn frame ends the connection but is processed on; padding is returned without an update |
| Inbound.Receiver.OnData | internal/transport/h2c/conn.go:37-67 | the handler computes one step on the Go counters, never wraps or panics, moves bytes between window, queue and what is held, and ends the connection exactly on a frame longer than the window unless it had gone away |
| Inbound.RemoteGoAwayFirst | internal/transport/h2c/conn.go:38-45 | after a GOAWAY of the peer no frame, however long, makes the connection close |
| Inbound.AlwaysBounded | internal/transport/h2c/flow.go:44-56 | in every run of frames the queue stays below 4096 and no counter overflows |
| Inbound.BalanceIsConstant | internal/transport/h2c/conn.go:38-60 | window, queue and held bytes add up to the initial balance plus overdrawn frames |
| Inbound.InboundAccounting | internal/transport/h2c/conn.go:37-67 | for a peer that obeys its own window: the sum is constant, and the peer's window is 65535 minus queued, held and dropped credit |
| Inbound.ObedientPeerPasses | internal/transport/h2c/conn.go:38 | such a peer never fails the check |
| Inbound.NoStall | internal/transport/h2c/conn.go:42-60 | the peer's window exceeds 65535-4096 if and only if no update was dropped and queued and held bytes are below 4096; with nothing held, if and only if none was dropped |
| Inbound.NothingKept | internal/transport/h2c/conn.go:46-60 | unpadded, fully delivered DATA leaves nothing held and drops nothing |
| Inbound.PaddingStallsPeer | internal/transport/h2c/conn.go:42-45 | a run of padded frames after which the peer's window is empty although every byte was consumed |
| Inbound.FinishedStreamStallsPeer | internal/transport/h2c/conn.go:38-46 | a run of unpadded frames for a finished stream after which the peer's window is empty although no update was dropped |
| Inbound.StallIsFinal | internal/transport/h2c/conn.go:42-60 | an obedient peer with an empty window never gets credit again |
| BodyWriter.Refill | internal/transport/h2c/stream.go:192-198 | the buffer gets the next bytes of the body behind what it holds |
| BodyWriter.ShiftDown | internal/transport/h2c/stream.go:205 | the bytes not sent move to the front of the buffer |
| BodyWriter.Emit | internal/transport/h2c/stream.go:201-207 | one DATA frame takes exactly the first bytes off the buffer onto the wire |
| BodyWriter.Turn | internal/transport/h2c/stream.go:186-220 | one turn keeps wire plus buffer equal to what was read, and keeps to a measure that pays for the turns until reader and surroundings leave nothing to do |
| BodyWriter.WriteRequestBody | internal/transport/h2c/stream.go:171-221 | for every reader, error schedule and grant schedule wire plus buffer is what was read, and the bytes on the wire are the credit taken unless the framer failed; on success the wire is the whole body of the declared length, END_STREAM on the last frame only, frames within the limit and the declared size; with a reader that gets to the end and any declared size but 0 and 1024, a body of that size or of no declared size is done, a shorter one too short and a longer one too long within twice its length and two turns; for 1024 nothing is ever sent; whatever errors were reported, the outcome is `ComesTo`, and a reader stuck before the end keeps the loop running and reading the error for every number of turns |
| BodyWriter.ThresholdMeans | internal/transport/h2c/stream.go:183-192 | a buffer below 1024 bytes is always read into, one of 1024 never, a larger one while it holds fewer than 512 bytes and than its size less 1024 |
| HeaderBlocks.OneFrame | internal/transport/h2c/stream.go:99-117 | one frame takes a receiver one fragment further, within the limit then in force |
| HeaderBlocks.WriteHeaders | internal/transport/h2c/stream.go:86-125 | a receiver gets exactly the encoded block whatever the limits do, HEADERS first, END_HEADERS on the last frame only; it succeeds if and only if none of the frames it needs is stopped by cancellation or the framer, and stops at the first that is, leaving the receiver midway |
| HeaderBlocks.EncodeHeaders | internal/transport/h2c/controller/hpack.go:30-57 | a list over the peer's limit, compared modulo 2^32, writes nothing; any other is written whole if and only if no frame is stopped |
| HeaderBlocks.HeaderBlocksStayWhole | internal/transport/h2c/conn.go:215-227 | with any number of openers a receiver that is not broken has the encoded blocks in increasing id, without those given up, all but possibly the one being written |
| HeaderBlocks.BrokenExactly | internal/transport/h2c.go:67-76 | in every run the sequence of HEADERS and CONTINUATION frames is broken for a receiver if and only if a block was given up after its first frame and a frame was written later |
| HeaderBlocks.AbandonedBlockBreaks | internal/transport/h2c/stream.go:92-101 | for every block of more than 16384 bytes a run within the limits a peer can set in which it is cancelled after one frame and the next opener's HEADERS is a connection error in every continuation |
| HeaderTable.DecodesExactly | internal/transport/h2c/controller/hpack.go:30-57 | in every run whose frames are not broken a receiver has the encoder's table for a block it completes, so that every reference means the same, if and only if no earlier block that inserted an entry was given up after it was encoded |
| HeaderTable.CancelledBlockDesyncs | internal/transport/h2c/controller/hpack.go:53-56 | a run in which a block cancelled before its first frame leaves the next block referring to an entry the receiver does not have |
| HeaderTable.SameEntries | internal/transport/h2c/controller/hpack.go:53-55 | all references resolve alike in two tables if and only if the tables are equal |
| Bufio.Reader.ReadLine | internal/transport/chunked/reader.go:29 | lines as bufio delivers them: terminator dropped, pieces of a long line, a cut line returned as a line |
| ChunkedCoding.HexRoundTrip | internal/transport/chunked/reader.go:36-50 | parsing the printed size gives the size back |
| ChunkedCoding.PrintedDigits | internal/transport/chunked/writer.go:25 | a size prints in at most 15 digits exactly if it is below 2^60 |
| ChunkedCoding.SizeIsSmall | internal/transport/chunked/reader.go:48-53 | every accepted size is below 2^60, so uint64 shifts and the int64 conversion lose nothing |
| ChunkedCoding.RoundTrip | internal/transport/chunked/writer.go:18-51 | decoding the writer's output gives the concatenated writes, a clean end and the untouched rest exactly if every write is below 2^60 bytes |
| ChunkedCoding.DecodeExtends | internal/transport/chunked/reader.go:58-99 | a clean decoding does not depend on what follows the coding |
| ChunkedCoding.TruncationIsNotClean | internal/transport/chunked/reader.go:24-99 | every proper prefix of an accepted coding delivers a prefix of the payload and no clean end |
| ChunkedIO.ChunkedWriter.Write | internal/transport/chunked/writer.go:18-42 | one chunk for a non-empty write, nothing for an empty one, a prefix of the chunk on failure; the count returned is that of the data bytes on the wire |
| ChunkedIO.ChunkedWriter.CloseWithTrailer | internal/transport/chunked/writer.go:44-51 | the wire then holds the complete coding of the writes |
| ChunkedIO.ParseDigits | internal/transport/chunked/reader.go:36-50 | accepts exactly hexadecimal digits; up to 15 of them shift to their exact value |
| ChunkedIO.ChunkedReader.ReadChunkHeader | internal/transport/chunked/reader.go:24-56 | succeeds exactly on a size line the reference accepts, with its value, and consumes that line only |
| ChunkedIO.ChunkedReader.Read | internal/transport/chunked/reader.go:58-99 | moves the next bytes of the pending payload to the caller; at the first error all of it was delivered, io.EOF exactly on a clean end, and then the stream is behind the coding |
| ChunkedIO.ReadToEnd | internal/transport/chunked/reader.go:58-99 | the same over any sequence of buffer sizes, empty ones included |
| ChunkedIO.Receive | internal/transport/chunked/reader.go:24-99 | for every byte stream payload and cleanness are those of the one-shot decoder, however it is cut and read |
| ChunkedGrammar.SpellsExactly | internal/transport/chunked/reader.go:36-50 | the digits accepted and their values are the sixteen hexadecimal ones in either case |
| ChunkedGrammar.AnyCase | internal/transport/chunked/reader.go:38-46 | a printed size keeps its value with any of its letters capitalised |
| ChunkedGrammar.AcceptsExactly | internal/transport/chunked/reader.go:24-99 | a stream is accepted if and only if it begins with a coding of the grammar, and then delivers that coding's payload and leaves what follows |
| ChunkedGrammar.AfterChunks | internal/transport/chunked/reader.go:58-99 | chunks before an error are delivered whatever follows |
| ChunkedGrammar.BadEnd | internal/transport/chunked/reader.go:79-91 | data not followed by CRLF ends the stream there |
| ChunkedGrammar.BadSize | internal/transport/chunked/reader.go:36-53 | a size line of other characters or more than fifteen digits delivers nothing |
| ChunkedGrammar.WriterPrints | internal/transport/chunked/writer.go:18-51 | every write is one chunk with its size in lower case, and the last chunk is `0`, CRLF, CRLF |
| ChunkedGrammar.ReceiveCoding | internal/transport/chunked/reader.go:24-99 | any spelling of a coding comes out of the incremental reader as its payload, then io.EOF, the rest untouched |
| ChunkedIO.Exchange | internal/transport/chunked/reader.go:58-99 | what was written comes back whole, then io.EOF, and the following bytes are left |
| ChunkedIO.ReceiveTruncated | internal/transport/chunked/reader.go:24-99 | a cut stream yields a prefix and an error other than io.EOF |
| ListWalk.NextToken | internal/transport/http1/utils.go:19-29 | one round finds the last element, trimmed, and the comma before it |
| ListWalk.WalkReverse | internal/transport/http1/utils.go:15-45 | the callback gets exactly the reversed trimmed elements up to its first false; the result is the last element |
| ListWalk.TrimsOwsExactly | internal/transport/http1/utils.go:22-26 | trimming is that of the RFC exactly if the rest does not begin with a control character |
| ListWalk.PlainElements | internal/transport/http1/utils.go:15-45 | without control characters the elements are the comma-split, white-space-trimmed ones |
| Framing.LineSays | internal/transport/http1/http1.go:326-333 | a line passes exactly if all its elements equal the first one and it is not empty |
| Framing.ParsesExactly | internal/transport/http1/http1.go:341 | a length parses if and only if it is decimal digits writing a number below 2^63, and to that number |
| Framing.DecimalRoundTrip | internal/transport/http1/http1.go:341 | a printed number parses back exactly if it is below 2^63 |
| Framing.ReadContentLength | internal/transport/http1/http1.go:313-347 | a length is found exactly if every element of every line is the same decimal below 2^63 |
| Framing.CombinedListsAll | internal/transport/http1/http1.go:369-373 | joining the Transfer-Encoding lines keeps the list of their elements |
| Framing.ReadHeader | internal/transport/http1/http1.go:296-438 | fails exactly on a bad version or contradictory lengths; keeps the connection exactly if the body is self-delimiting, by a known length and no coding or a coding list ending in `chunked` and length -1, and nobody asked to close |
| Framing.FrameByLength | internal/transport/http1/http1.go:305-347 | an ordinary response with one decimal length n and no coding has a body of n bytes, and is refused from 2^63 on |
| Framing.VersionsWithCodings | internal/transport/http1/http1.go:303 | codings count in every version but 0.x |
| Framing.FollowsRfcExactly | internal/transport/http1/http1.go:305-430 | the decision is that of section 6.3 of RFC 9112, written from its items in their order, if and only if `Conforms` holds |
| Framing.LengthsExactly | internal/transport/http1/http1.go:313-347 | the source finds a length if and only if the RFC does and its spellings are alike, without empty elements and below 2^63; then the same one |
| Framing.LetterCase | internal/transport/http1/http1.go:422-424 | a last coding `chunked` in other letters is read to the end of the connection |
| Framing.EmptyLastElement | internal/transport/http1/http1.go:422-424 | so is `chunked` followed by an empty element |
| Framing.ForbiddenBody | internal/transport/http1/http1.go:389-406 | responses that have no body to the RFC: a tunnel or a coded body to the source |
| Framing.EmptyTransferEncoding | internal/transport/http1/http1.go:374-415 | an empty Transfer-Encoding beside a length: the length counts to the source, not to the RFC |
| Framing.UselessLengths | internal/transport/http1/http1.go:335-337 | contradictory lengths that do not count are refused |
| Framing.EmptyLengthElement | internal/transport/http1/http1.go:326-337 | a valid length with an empty element beside it is refused |
| Framing.CapitalChunked | internal/transport/http1/http1.go:422-424 | the same for the header `Transfer-Encoding: Chunked` |
| Framing.ChunkedThenComma | internal/transport/http1/http1.go:422-424 | and for `Transfer-Encoding: chunked,` |
| Framing.NoContentForConnect | internal/transport/http1/http1.go:389-406 | and for a 204 in answer to a CONNECT |
| Framing.ChunkedForHead | internal/transport/http1/http1.go:389-415 | and for a chunked answer to a HEAD |
| Http1Session.Session.ReadRaw | internal/transport/http1/http1.go:77-95 | bytes come off the logical stream in order although the buffer is bypassed, and the panic is unreachable |
| Http1Session.Session.Read | internal/transport/http1/http1.go:60-76 | moves the next bytes of the body; a complete body ends with the stream behind it; how an incomplete one ends |
| Http1Session.ReadResponse | internal/transport/http1/http1.go:147-169 | accepts exactly lists of `chunked`; which reader and which body follow |
| Http1Session.KeepableByLength | internal/transport/http1/http1.go:305-347 | an ordinary response whose one length is the decimal print of its body's length, below 2^63, is delimited by it |
| Http1Session.KeepableByChunks | internal/transport/http1/http1.go:369-424 | so is one with the coding `chunked` by any spelling of a coding of its body |
| Http1Session.ReadBody | internal/transport/http1/http1.go:60-76 | any buffer sizes deliver the body exactly and leave the stream behind it; of a body cut short all there is, ending in a plain io.EOF if and only if its length was known and the connection ended in one |
| Http1Session.ServeCutShort | internal/transport/http1/http1.go:60-95 | a response cut anywhere in its body yields a prefix of it, and a plain io.EOF if and only if its length is known and the connection ended in one |
| Http1Session.TwoOfFive | internal/transport/http1/http1.go:60-76 | two bytes of a body of five are passed off as all of it |
| Http1Session.FrameMessage | internal/transport/http1/http1.go:296-438 | a correctly framed response is given its own delimitation and its connection is kept |
| Http1Session.ReadResponses | internal/transport/http1/http1.go:147-169 | responses back to back: every body exactly, and the stream left at the next response |
| Http1Session.Serve | internal/transport/http1/http1.go:213-228 | the same from a fresh connection, with any bytes after the last response left untouched |
| Pipeline.PipelineOrder | internal/transport/http1/http1.go:182-232 | in every run requests are written in order of submission, reach the reader in order of writing, and the i-th response goes to the i-th request |
| Pipeline.PipelineDepth | internal/transport/http1/http1.go:199-227 | at most two requests are written and not completed; without a failure the signals are the responses |
| Pipeline.SignalledOnce | internal/transport/http1/http1.go:195-227 | in every run no session is signalled twice, and the signalled ones are the served ones and at most one failed write |
| Pipeline.AfterFailedRead | internal/transport/http1/http1.go:213-228 | if the read for the j-th request handed over fails, only the next session is still signalled by the reader, and none behind it in any continuation |
| Pipeline.AnsweredExactly | internal/transport/http1/http1.go:188-228 | in every reachable state a session taken by the writer can still be signalled if and only if no read has failed, it is at most the one behind the failed one, or its request is not written |
| Pipeline.StuckForEver | internal/transport/http1/http1.go:206-221 | once the reader has returned and a request is to be handed over, nothing changes any more |
| Pipeline.StuckIsReachable | internal/transport/http1/http1.go:218-226 | with several sessions on one Conn, a failed read followed by two more requests leads there, and the third session is signalled in no continuation |
| Pipeline.AnsweredAlone | internal/transport/http1/http1.go:213-228 | if a Conn is given to one session at a time and to none after a failure, every session it has taken can get its signal in every reachable state |
| PoolModel.NextKeeps | utils/netpool/pool.go:32-73 | every step keeps tickets, queue, holders and close counts consistent |
| PoolModel.PoolSafety | utils/netpool/pool.go:32-73 | in every run tickets are live connections plus dials plus failed dials, so connections stay within maxConn and idle ones within maxIdle; nothing is closed twice; no two sessions hold one connection |
| PoolModel.CloseNeverBlocks | utils/netpool/connection.go:38-44 | whenever a connection is being closed its ticket is there to be received |
| PoolModel.ServedExactly | utils/netpool/pool.go:32-73 | in every reachable state any session can still come to hold a connection if and only if fewer than maxConn dials have failed or there is no limit |
| PoolModel.StarvedForEver | utils/netpool/pool.go:65-71 | after maxConn failed dials no session ever holds a connection again |
| PoolModel.StarvationIsReachable | utils/netpool/pool.go:65-71 | such a run exists for every non-zero maxConn |
| NetPool.Pool.TryGetConn | utils/netpool/pool.go:32-59 | the first idle connection that has not expired is handed out, exactly those before it are closed and the queue is what followed; if there is none, all are closed, and the caller may dial or waits with all tickets out |
| NetPool.Pool.Connect | utils/netpool/pool.go:61-73 | a session gets that connection, or else a new one exactly if it may dial and that succeeds, held by no other session |
| NetPool.Pool.Release | utils/netpool/connection.go:21-36 | queued exactly if it may be kept and there is room, closed otherwise |
| NetPool.Pool.ReturnTicket | utils/netpool/connection.go:38-44 | the ticket receive at the end of Close succeeds |

## Left out

- Dialing, TLS, DNS, proxies, the client facade, tracing and the poll helpers: I/O and thin wrappers.
- The framer, the HPACK encoder and decoder, textproto, url and strconv: not part of the repository.
- DecodesExactly: speaks of the entries inserted, not of their eviction once the table is full; a block that refers to no entry is decoded in any case.
- Deadlocks of the lock graph: locks nest in differing orders, and GOAWAY takes `muActive` twice; each region is one step here.
- The gap between entering a new stream in the active map and crediting it (conn.go:218-222): opening is one step here; a SETTINGS step in the gap would count its change twice.
- FollowsRfcExactly: speaks of field values without control characters, which the grammar of RFC 9110, section 5.5, excludes; TrimsOwsExactly says what the walk does with them.
- Parameters of codings: a coding with parameters is another coding than chunked, which defines none (RFC 9112, section 7.1); the version of the message plays no part in section 6.3.
- AssignStreamID: takes a stream that was not closed before it got its id, because its only caller assigns the id first; a stream closed earlier would stay in the active map.
- CONTINUATION contiguity against frames other than HEADERS: the write lock is held per frame, so the source does not enforce it.
- Per-stream inbound windows: set but never charged.
- ReadResponse: for several `chunked` codings the decoders are counted but only the first is built, and the boundary results are about a single one, because an outer decoder may stop before the inner coding ends.
- Close-delimited bodies: the source sets no reader for them.
- Unread bodies at Close: the source does not drain them, so the boundary results read bodies to their end.
- Reads after the chunked reader's io.EOF: it does not latch the end and would consume two more bytes.
- Transfer-Encoding in HTTP/1.0: the source compares a packed version with 11, which drops the field for 0.x only; the model does the same, and `Conforms` tells such a response from one the RFC would frame alike. Section 6.1 of RFC 9112, which distrusts the framing of an HTTP/1.0 message with that field, is not part of the comparison.
- Chunked extensions, trailers, the flush after a chunk, and the short-write branch, which needs a writer that breaks its contract.
- Blocked waits: a take, an open or a connect that waits is reported as waiting and can be tried again; that it is woken is not shown.
- Concurrent releases of one session: Session.Release tests and clears its field without a lock; a session gives up its connection in one step here. With needClose set, Session.Close closes the network connection a second time after the pool did.
- The channels of the pipeline as objects: its two goroutines are steps on values.
- Ping futures, buffer pools, error wrapping, request preparation and pool groups: they carry no invariant of their own.
