# Claw64 serial transport: a verified model

Claw64 connects a Commodore 64 to a chat and to a language model over a serial line.  The line's
protocol exists twice: in Go on the bridge, and in 6502 assembly on the C64.  This project models
both ends and the line between them, and proves what the protocol is for: whatever the line does
within stated limits, frames arrive intact, once and in order, and the texts that are cut into
frames at one end are whole at the other.

`dafny verify dfyconfig.toml` verifies everything.

## How the model is organised

| layer | modules |
|---|---|
| bytes, exclusive or, checksums, 16-bit arithmetic in two bytes | `Wire`, `Words` |
| frames, the Go codec, streams with noise and damage | `Frames`, `GoCodec`, `Streams`, `GoStreams` |
| the C64's byte-at-a-time parser | `C64Parser`, `C64Streams` |
| seven-bit ids and the unbounded numbers behind them | `TransportIds`, `ReliableLink` |
| the C64's receiver, transmit buffer and single-outstanding sender | `C64Receiver`, `TextAdmission`, `TxBuffer`, `Outbound`, `SenderRuns` |
| everything the C64 puts on the line, acknowledgments in the middle of frames included | `LineRuns` |
| the receive buffer in which a chat message waits | `SharedBuffer` |
| the C64 agent as a whole: parser, gate, handlers, queue and sender over shared buffers | `Agent`, `AgentRuns`, `AgentLine`, `AgentMachine` |
| sender, two lines and receiver as a state machine, in both directions | `VerifiedSend` |
| the bridge's inbound side and its waits | `Inbox`, `Relay` |
| first-come-first-served gate, three-slot queue | `MessageGate`, `UserQueue` |
| chunked texts: screen results, system prompt, chat | `Reassembly`, `ScreenResult`, `SoulPrompt`, `ChatText` |
| all layers together | `EndToEnd`, `TextDelivery`, `ChatPaths` |

Code that changes state step by step is imperative: the Go decoder reads from a `Reader`, the C64
parser is a register machine over its receive buffer, the frame builders work in place in a
128-byte array, the relay, the gate, the ring, the scraper and the agent that holds them together are
classes.  Each is tied to a function of values, and the theorems over whole streams and runs are about those functions.
A byte is an integer from 0 to 255, and every wrap-around, carry and borrow is written out.  A
sequence number that neither side transmits stands behind every id; it is only used to say what
the ids should mean.

## What the proofs turned up

- A receiver survives up to 62 frames in a row lost with all their copies.  After 63 the next frame
  looks old (`ReliableLink.LossBound`); the exact condition for an in-order line, in which a loss of
  a whole id cycle or more can go unnoticed again, is `ReliableLink.KeepsUpExactly`.
- For the bridge's verified send, "confirmed means dispatched" holds exactly when at most 62 sends
  in a row end unconfirmed (`VerifiedSend.VerifiedSendMeansAccepted`); for 63, all their copies
  lost, a run is constructed in which a send is confirmed that the C64 never dispatched.  The C64's
  own sender has the same bound (`VerifiedSend.AcknowledgedMeansTaken`).
- A chat message that waits in the receive buffer reaches the bridge exactly if, until its LLM frame
  is built, no queued message is loaded over it, no other message is staged directly, and no received
  byte is left in its place that differs (`ChatPaths.MessageReachesBridge`, on an intact line whose
  acknowledgments go out between transmissions).  A load happens, when the
  queue is not empty, at an accepted DONE, at the acknowledgment of an LLM frame in the send buffer,
  and in the pass that releases a held-back TEXT acknowledgment (`AgentRuns.Loads` spells it out).  So
  an id-only DONE, which spares every byte, replaces the message (`ChatPaths.DoneReplacesTheMessage`),
  and a message typed while a reply awaits its acknowledgment is lost with nothing received at all
  (`ChatPaths.HeldBackAckCostsAMessage`).
- A single guarded acknowledgment replaces a waiting message's first character by the complemented id
  (`SharedBuffer.AcksDamageTheMessage`).  The first message waits while the system prompt goes out and is
  acknowledged chunk by chunk (c64/agent.asm:954-975), so this is its ordinary course.
- A reply chunk goes on to the user exactly if no DONE and no other TEXT or EXEC is accepted before its
  turn (`ChatPaths.TextToUser`): DONE drops it without a trace.
- The acknowledgment of a TEXT means that its USER frame was built and sent in full, as the comment at
  c64/agent.asm:887-890 wants it, exactly if no other acknowledgment was still due when the TEXT was
  accepted; that one goes out at once, under the TEXT's id (`AgentRuns.AckMeansReplySentExactly`).
- The number of SYSTEM chunks travels in one byte of which the line keeps seven bits: a prompt arrives
  exactly if its text is seven-bit and has at most 127 chunks (`TextDelivery.SoulReachesBridge`).  The
  assembler refuses prompts over 2048 bytes, which are 18 chunks (c64/loader.asm:676), so for every
  prompt that can be built only the seven-bit text matters (`TextDelivery.AssembledPromptIsShort`).
- The C64 lets an acknowledgment out in the middle of another frame (c64/agent.asm:991-1005).  Between
  transmissions it changes nothing for the bridge (`LineRuns.TidyHears`, `EndToEnd.SentIsTaken`); a
  transmission with one inside counts as lost (`EndToEnd.WholeIsTaken`).
- The Go and the 6502 half-window tests differ on one pair of seven-bit ids only, 0 after 127, and 0
  is never sent (`TransportIds.SameTest`).
- A damaged frame whose raw checksum byte reads $FE costs the next frame as well, exactly when that
  frame's own sync byte does not read $FE (`GoStreams.SyncByteMatters`), or exactly one byte of noise
  that is no known type stands between (`GoStreams.NoiseAfterMatters`).
- 125 sync bytes free the C64's parser from any state; 124 do not (`C64Streams.AnyStateRecovers`,
  `C64Streams.Needs125`).
- The number of RESULT chunks is the number of full ones plus one.  The comment at
  c64/agent.asm:1468 says otherwise; a text of exactly 120, 240, … characters ends with an empty chunk.
- Screen code 0, which shows @, is taken for a blank (c64/agent.asm:1577-1578): a line is scraped as the
  text it shows exactly if there is no @ in it (`ScreenResult.LineShown`).
- An acknowledgment of a TEXT means that the text was copied exactly if no command was waiting when its
  first copy was accepted; otherwise a retry is acknowledged although the text was refused
  (`TextAdmission.AckMeansTakenExactly`), against PROTOCOL.md:152-154.
- A waiter that gives up after the gate was handed to it leaves the gate busy for good
  (`MessageGate.EveryRunIsFair`, `MessageGate.OrphanedForever`).
- PROTOCOL.md:215-218 has every duplicate acknowledged again.  The code does so exactly unless the
  duplicate is a TEXT and a TEXT acknowledgment is held back; and even then if that one is its own and
  is released (`TextAdmission.StaleIsAcknowledgedExactly`).

## Model

| member | source | states |
|---|---|---|
| `Wire.XorDetects` | bridge/serial/frame.go:128-162 | two strings that differ in exactly one byte have different running checksums |
| `Wire.Xor2Bits` | bridge/serial/frame.go:60-72 | the exclusive or of two bytes, bit by bit |
| `Frames.Encode` | bridge/serial/frame.go:54-73 | the filled buffer is sync, type, length, payload cut at 255 bytes, and the seven-bit checksum |
| `Frames.EncodedCarries` | bridge/serial/frame.go:54-73 | a seven-bit frame's encoding spells that frame modulo bit 7 |
| `Frames.CarriesOne` | bridge/serial/frame.go:96-184 | a wire string spells at most one frame |
| `Frames.RawCarriesDulled` | bridge/serial/frame.go:147-163 | a frame sent with 8-bit payload bytes and an 8-bit checksum spells its seven-bit remainder |
| `Frames.PrependID` | bridge/serial/frame.go:225-230 | the new payload is the id followed by the old payload |
| `Frames.TypesByNumber` | bridge/serial/frame.go:26-46 | the types by their characters, and which of them carry an id |
| `Frames.GuardComplements` | bridge/relay/relay.go:1658-1661 | the second byte of a guarded acknowledgment is the first one's seven-bit complement |
| `GoCodec.Decode` | bridge/serial/frame.go:96-184 | the byte-by-byte decoder with its restarts ends on every finite input and returns, with the unread rest or the place the input ran dry, what the recursive decoding function says |
| `GoCodec.ReadAfterType` | bridge/serial/frame.go:132-181 | unknown type: hunt again after the length byte; bad checksum: the raw $FE checksum byte counts as the next sync; otherwise the frame |
| `GoCodec.ReadPayload` | bridge/serial/frame.go:147-158 | the payload read is the masked input, cut short only by its end, and the checksum is the one over type, length and payload |
| `GoStreams.DecodeAllRecovers` | bridge/serial/frame.go:96-184 | from any stream of intact frames, noise and frames damaged in one byte, with bit 7 arbitrary, repeated decoding returns exactly the intact frames in order; the one restriction is on what follows a damaged frame whose raw checksum byte reads $FE: the end, a raw $FE, or stray noise not directly followed by a frame |
| `GoStreams.SyncByteMatters` | bridge/serial/frame.go:168-181 | after a damaged frame whose checksum byte reads $FE the next frame is recovered if and only if its sync byte reads $FE |
| `GoStreams.NoiseAfterMatters` | bridge/serial/frame.go:132-141 | with noise of no known type in between, it is recovered if and only if there are at least two bytes of it |
| `GoStreams.DecodeSound` | bridge/serial/frame.go:96-184 | whatever the input, a returned frame was on the wire behind a sync-like byte, with matching checksum and a known type, and everything after it is left unread |
| `GoStreams.HuntShaped` | bridge/serial/frame.go:96-184 | the three outcomes of decoding a frame-shaped string: the frame, a restart at the type, a restart at the hunt |
| `GoStreams.TruncationNoticed` | bridge/serial/frame.go:96-184 | a frame cut short after any number of bytes is reported at the place where it breaks off |
| `C64Parser.Parser.FrameRxByte` | c64/agent.asm:1736-1836 | the register machine reacts to a byte as the mode machine does, in the new mode and in what it dispatches |
| `C64Parser.Parser.StorePayload` | c64/agent.asm:1807-1818 | the byte is appended to the receive buffer, the running checksum stays right, and the last byte leads to the checksum state |
| `C64Parser.Parser.ReadLength` | c64/agent.asm:1782-1801 | a sync-like length restarts at the type, a zero length skips the payload |
| `C64Streams.ParseStream` | c64/agent.asm:1736-1836 | feeding a whole string to the registers gives the mode and the dispatched frames of the mode machine |
| `C64Streams.FeedConcat` | c64/agent.asm:1736-1836 | parsing is incremental: a string may be cut anywhere |
| `C64Streams.ParserRecovers` | c64/agent.asm:1736-1836 | exactly the intact bridge frames of a noisy, damaged stream are dispatched, in order, and the parser ends hunting unless a damaged checksum looked like a sync; the one restriction is that such a checksum is not followed by two bytes of noise |
| `C64Streams.TwoNoiseBytesSwallowAFrame` | c64/agent.asm:1782-1818 | two bytes of noise there swallow any next frame shorter than the second of them says |
| `C64Streams.OneDamagedByte` | bridge/serial/frame.go:151-181 | encoded frames back to back with one payload or checksum byte changed: the bridge decodes exactly the others, and so does the C64 parser when they fit it |
| `C64Streams.ReceiversAgree` | c64/agent.asm:1736-1836 | on every stream both can follow, both receivers hear the same frames |
| `C64Streams.SyncsResynchronize` | c64/agent.asm:1759-1836 | sync-like bytes bring the parser to the subtype state from any state, with at most one dispatch on the way |
| `C64Streams.AnyStateRecovers` | c64/agent.asm:1736-1836 | after 125 sync-like bytes every intact frame is dispatched, whatever the state before, with at most one false frame in front |
| `C64Streams.Needs125` | c64/agent.asm:1782-1836 | 124 sync bytes are not enough: a state reached from HUNT by three bytes is left hunting |
| `TransportIds.CountersTrack` | bridge/relay/relay.go:1456-1468 | both id counters stay the ids of the unbounded send numbers for ever, within 1..127 |
| `TransportIds.AheadExactly` | c64/agent.asm:1895-1908 | the 8-bit add, subtract and compare accepts exactly the numbers 1 to 63 ahead modulo 127 |
| `TransportIds.WindowDecides` | bridge/relay/relay.go:1576-1585 | within 63 of the newest frame, both half-window tests decide exactly which of two unbounded numbers is later |
| `TransportIds.SameTest` | bridge/relay/relay.go:1576-1585 | the Go and the 6502 test agree on two seven-bit ids if and only if they are not 0 after 127 |
| `TransportIds.SameId` | bridge/relay/relay.go:1456-1468 | two frames share an id if and only if they are a multiple of 127 apart |
| `ReliableLink.IdsRefineNumbers` | c64/agent.asm:1895-1926 | as long as arrivals are in the window, the receiver that sees only ids accepts what one that sees unbounded numbers would |
| `ReliableLink.AcceptedInOrder` | c64/agent.asm:1895-1926 | over a channel that loses, repeats and reorders, accepted frames are strictly in send order, none twice and none invented, and nothing that arrived is newer than the newest accepted |
| `ReliableLink.KeepsUpExactly` | c64/agent.asm:1895-1926 | on an in-order line the receiver has accepted exactly what it should after every arrival if and only if every step forward is 1 to 63 modulo 127 |
| `ReliableLink.LossBound` | c64/agent.asm:1895-1908 | with fewer than 126 frames lost in a row the next is accepted if and only if at most 62 were lost |
| `VerifiedSend.InvStep` | bridge/relay/relay.go:1252-1279 | every step of sender, lines and receiver keeps the invariant that orders everything in flight between the last confirmed and the newest accepted frame |
| `VerifiedSend.InvDispatch` | c64/agent.asm:1895-1938 | whatever arrives first on the line, the C64 accepts it exactly if it is newer than everything accepted |
| `VerifiedSend.SafeUpTo62` | bridge/relay/relay.go:1252-1279 | in every run with at most 62 unconfirmed sends in a row, confirmed frames were dispatched, exactly once and in order |
| `VerifiedSend.UnfaithfulRun` | bridge/relay/relay.go:1252-1279 | for any number of copies per send, with 63 unconfirmed sends allowed there is a run that loses all copies of 63 frames and then confirms a frame the C64 never dispatched |
| `VerifiedSend.ConfirmedMeansAccepted` | bridge/relay/relay.go:1252-1279 | however many copies a sender puts on the line before it moves on, the guarantee holds if and only if at most 62 sends in a row can end unconfirmed |
| `VerifiedSend.VerifiedSendMeansAccepted` | bridge/relay/relay.go:1252-1279 | the same for the bridge, which gives up after exactly five copies |
| `VerifiedSend.AcknowledgedMeansTaken` | c64/agent.asm:912-951 | for the C64's sender, with one to four copies and implicit release: an acknowledgment of a frame means the bridge took it if and only if at most 62 sends in a row end without one |
| `VerifiedSend.ImplicitReleaseProvesNothing` | c64/agent.asm:1926-1930 | a run in which a released frame never reached the bridge |
| `C64Receiver.Receiver.FrameDispatch` | c64/agent.asm:1849-1941 | the registers and the handed-on frame are those of the gate function, for acknowledgments, echoes, empty, fresh and stale frames |
| `C64Receiver.GateRefines` | c64/agent.asm:1849-1941 | the gate with its ids is the receiver of the abstract system, and hands a frame on if and only if it is accepted |
| `C64Receiver.OutsideTheProtocol` | c64/agent.asm:1867-1893 | a frame without an id is handed on and changes no register; one of the C64's own types is dropped |
| `C64Receiver.GuardSelects` | bridge/relay/relay.go:1658-1661 | a guarded acknowledgment releases the wait for its own id and no other |
| `C64Receiver.GuardCatchesOneByte` | c64/agent.asm:1853-1866 | with one of its two bytes misread it releases nothing |
| `TextAdmission.AckMeansTakenExactly` | c64/agent.asm:1910-2025 | over everything that can follow (copies with any flags, other frames under their own numbers, frames without one, releases, emissions) an acknowledgment of a frame's id goes out only after the frame was taken, if and only if it is no TEXT or no command was waiting at its first accepted copy |
| `TextAdmission.TakenExactly` | c64/agent.asm:1895-2025 | in every such run whose arrivals stay within 63 of the newest accepted number, every later copy is recognized by its id, so whether the frame is taken is settled by the first one |
| `TextAdmission.StaleIsAcknowledgedExactly` | c64/agent.asm:1910-1920 | in every run after a repeated frame in which nothing goes out and no frame asks for an acknowledgment, its own is what goes out next if and only if it is not a TEXT while a TEXT acknowledgment is held back, or the one held back is its own and was released |
| `TxBuffer.TxBuf.BuildFrame` | c64/agent.asm:1244-1282 | the buffer holds exactly the frame with the copied payload and a right checksum |
| `TxBuffer.TxBuf.GuardBuildLlmMsg` | c64/guarded_queue.asm:230-264 | the buffer holds exactly the LLM frame with the event type in front of the body |
| `TxBuffer.TxBuf.SealChunk` | c64/agent.asm:1608-1635 | header and checksum are put around a payload laid out before, which is not changed |
| `TxBuffer.TxBuf.InjectTxId` | c64/agent.asm:1313-1364 | shifting by one byte and mending length and checksum leaves exactly the frame with the id in front, starts the wait and advances the id |
| `TxBuffer.TxBuf.ShiftRight` | c64/agent.asm:1315-1321 | every payload byte and the checksum moved up by one, none overwritten too early |
| `TxBuffer.InjectedSum` | c64/agent.asm:1327-1341 | old checksum, old length, new length and id combine to the checksum of the new frame |
| `Outbound.ServiceOutbound` | c64/agent.asm:911-1031 | one pass over the real buffer ages, retransmits, gives up, builds the frame it is offered and sends exactly as the pass function says |
| `Outbound.SendMain` | c64/agent.asm:1007-1031 | at most 16 bytes go out, in order, from where the last pass stopped |
| `Outbound.IdlePass` | c64/agent.asm:946-1031 | an idle sender builds what is ready under the next id, begins its wait at zero ticks, and sends the first bytes in the same pass |
| `Outbound.SilentBelow250` | c64/agent.asm:912-927 | while a frame waits for its acknowledgment, any passes with fewer than 250 ticks send nothing and build nothing |
| `Outbound.TickThatRepeats` | c64/agent.asm:924-945 | the 250th tick sends the frame again from its start, three times; the fourth time it gives the frame up |
| `Outbound.QuotaIsLeast` | c64/agent.asm:1007-1031 | a pass sends as many bytes as are left, as there is room for, or sixteen, whichever is least |
| `Outbound.SendAck` | c64/agent.asm:1287-1306 | the five bytes in the acknowledgment buffer are the ACK frame of the id |
| `SenderRuns.InvStep` | c64/agent.asm:911-1031 | every step keeps: the newest frame unchanged in the buffer under its id, one to four transmissions of each; every frame's wait was started, and all but the newest one's ended by a guarded acknowledgment of its own id, by an inbound frame when completely sent, by TEXT if it is an LLM frame, or by giving up after four transmissions |
| `SenderRuns.BuiltOnlyWhenFree` | c64/agent.asm:886-951 | nothing is built while a frame waits, except in the pass that gives it up after its fourth complete transmission; all earlier waits have ended |
| `SenderRuns.BytesStay` | c64/agent.asm:880-1031 | bytes and id of the newest frame stay until the next is built |
| `SenderRuns.GivesUpAfterFour` | c64/agent.asm:929-944 | giving up means four complete transmissions |
| `SenderRuns.Run` | c64/agent.asm:911-1031 | all of that in every run |
| `SenderRuns.SomeRunBuilds` | c64/agent.asm:880-1031 | every list of frames that fit the buffer is built, sent and released by some run |
| `LineRuns.LineInvStep` | c64/agent.asm:991-1031 | every step of the sender, and every acknowledgment let out at any moment, keeps: the line is nothing but whole transmissions, torn ones, acknowledgments and the transmission under way; per frame the whole and the torn ones add up to those made; none is torn but by an acknowledgment |
| `LineRuns.Drive` | c64/agent.asm:911-1031 | the real buffers, driven through any sequence of passes, acknowledgments in and out and inbound frames, have the registers and have sent the bytes of the run |
| `LineRuns.BridgeHears` | bridge/serial/frame.go:96-184 | where the decoder gets past the torn transmissions, it decodes exactly the acknowledgments and the whole transmissions, each frame as often as it went out whole, bit 7 of its payload gone |
| `LineRuns.TidyHears` | bridge/serial/frame.go:96-184 | in every run whose acknowledgments go out between transmissions, each frame is decoded exactly as often as it was sent in full, in building order; an unfinished transmission gives nothing |
| `LineRuns.InterruptedIsSkippable` | bridge/serial/frame.go:159-181 | a frame with an acknowledgment in its payload or checksum gives the decoder nothing and costs nothing after it, if the five foreign bytes break its checksum and what is left of it contains no sync-like byte |
| `LineRuns.DulledExactly` | bridge/serial/frame.go:147-158 | frames arrive unchanged if and only if their payloads are seven-bit |
| `Inbox.FreshMeansNew` | bridge/relay/relay.go:1536-1568 | within the window the bridge's duplicate test lets through exactly the frames an ideal receiver accepts, ids stripped, in order |
| `Inbox.AcceptIsReceive` | bridge/relay/relay.go:1536-1568 | frame by frame, inside the window or not, the bridge takes a numbered frame if and only if the id-only receiver does, and acknowledges every arrival |
| `Relay.Relay.SendNewReliable` | bridge/relay/relay.go:1499-1510 | the frame goes out last, after all acknowledgments due, with the next number's id in front |
| `Relay.Relay.FlushPendingAcks` | bridge/relay/relay.go:1590-1645 | the link gets exactly the acknowledgments of the queued ids, in order, each twice while a BASIC program runs, and the queue is empty |
| `Relay.AckFramesSpelled` | bridge/relay/relay.go:1590-1645 | what goes out for a list of ids: per id one guarded acknowledgment, or two in a row while a BASIC program runs |
| `Relay.Relay.AcceptC64FrameWith` | bridge/relay/relay.go:1536-1568 | the id is stripped once; its acknowledgment is queued, or everything queued is sent now and a USER frame's once more; duplicate or not as the value function says |
| `Relay.Relay.WaitForAckID` | bridge/relay/relay.go:1679-1732 | takes frames up to the first that is neither another acknowledgment nor a reliable frame it can queue (with a TEXT acknowledgment awaited, up to a fresh USER frame), or until none is left, and that frame decides the result; so if the acknowledgment comes behind such frames only, it is found; meanwhile the queue grows by exactly the fresh reliable frames and every reliable arrival's id is acknowledged or due |
| `Relay.Relay.WaitForAckOrSemantic` | bridge/relay/relay.go:1753-1807 | the same for requests that only a reply of the right type confirms: other frames are passed over, the first confirming one ends the wait, and only an unexpected one fails it |
| `Relay.RepliesThatConfirm` | bridge/relay/relay.go:1809-1831 | an ERROR answers every request, a STATUS all but a screenshot, a RESULT what shows the screen, and a repeated frame only a STATUS request |
| `Relay.Relay.WaitForStatusSemantic` | bridge/relay/relay.go:1390-1417 | the same for the status probe, ended by the first fresh STATUS or ERROR and failed only by an unexpected frame |
| `Relay.Relay.SendVerifiedWithTimeout` | bridge/relay/relay.go:1252-1279 | one new id, one to five identical copies; an acknowledgment that arrives during the k-th attempt behind reliable frames and other acknowledgments only makes it succeed in just that attempt; it fails only after five waits that each ended on an empty line or at an unexpected frame; what was taken is the front of what arrived, and nothing is lost from the queue meanwhile |
| `Relay.Relay.UnwrapAcceptedFrame` | bridge/relay/relay.go:1669-1677 | a frame replayed from the queue is never stripped or tested again |
| `Relay.Relay.RecvFromC64` | bridge/relay/relay.go:1994-2001 | queued frames come out first, in order |
| `Relay.Relay.HandBack` | bridge/relay/relay.go:672-675 | a frame handed back is the next one out, already accepted |
| `MessageGate.Lane.Cancel` | bridge/relay/relay.go:206-215 | exactly the caller's own place in the queue is given up |
| `MessageGate.Drive` | bridge/relay/relay.go:194-266 | the real gate, driven through any run, ends in the run's state and let in the same callers in the same order |
| `MessageGate.EveryRunIsFair` | bridge/relay/relay.go:194-266 | in every run the callers inside or handed the gate are never two; waiters only while busy; grants in order of arrival among those that stayed; busy means held if and only if no chosen waiter gave up |
| `MessageGate.EveryCallIsAnswered` | bridge/relay/relay.go:194-266 | in every run a caller gets a free gate at once, else the last place in the queue or, if it only tried, a refusal; a release hands the gate to the first in the queue; who gives up loses its own place only |
| `MessageGate.GrantedOnlyWhenFree` | bridge/relay/relay.go:255-266 | the gate is granted only when nobody holds it, or in the step in which its one holder releases it |
| `MessageGate.OrphanedForever` | bridge/relay/relay.go:205-215 | once a chosen waiter has given up, nobody is granted the gate again in any continuation |
| `UserQueue.Ring.Enqueue` | c64/guarded_queue.asm:7-42 | the ring becomes the simple queue with the message appended and, if it was full, its oldest dropped |
| `UserQueue.Ring.LoadHead` | c64/guarded_queue.asm:44-86 | the oldest message is read out and removed |
| `UserQueue.Drive` | c64/guarded_queue.asm:7-106 | any possible sequence of operations reads out of the ring what the simple queue would |
| `UserQueue.FirstInFirstOut` | c64/guarded_queue.asm:7-106 | the queue always holds the newest arrivals, at most three; loads come in order of arrival, each message at most once |
| `UserQueue.LosslessExactly` | c64/guarded_queue.asm:7-17 | no message is lost if and only if the backlog never exceeded three |
| `Reassembly.Collector.HandleResultFrame` | bridge/relay/relay.go:339-365 | the chunk map and the returned text are those of the value function |
| `Reassembly.ResultArrives` | bridge/relay/relay.go:339-365 | the chunks in order give the whole text with the last one and nothing before, whatever was left over from an earlier result |
| `Reassembly.ResultGathers` | bridge/relay/relay.go:339-365 | the chunks after the first may come in any order and repeatedly: the text comes out with the last missing one and not before |
| `Reassembly.Collector.HandleSystemFrame` | bridge/relay/relay.go:313-336 | the chunk map and the prompt are those of the value function |
| `Reassembly.SystemArrives` | bridge/relay/relay.go:313-336 | for every order of arrival with repetitions the prompt is the whole text from the arrival of the last missing chunk on and the old one until then, and the map is cleared at that moment |
| `Reassembly.CompleteBySize` | bridge/relay/relay.go:328 | a map of a text's chunks is complete exactly when it has as many entries as there are chunks |
| `ScreenResult.LineLen` | c64/agent.asm:1652-1683 | the length at which the converted row loses its trailing spaces and nothing else |
| `ScreenResult.FindScreenEndLine` | c64/agent.asm:1507-1519 | the last line with text, or the cursor's if that is lower |
| `ScreenResult.TotalLength` | c64/agent.asm:1435-1462 | the two-byte sum is the length of the joined text |
| `ScreenResult.CountChunks` | c64/agent.asm:1468-1493 | repeated subtraction gives the number of full chunks plus one |
| `ScreenResult.Scraper.PrepareResultRangeChunks` | c64/agent.asm:1435-1500 | the scraper stands at the start of the range's text with the right number of chunks |
| `ScreenResult.Scraper.BuildNextResultChunk` | c64/agent.asm:1528-1644 | the buffer holds the RESULT frame with the next 120 characters of the text, fewer only at its end, and the scraper stands right behind them |
| `ScreenResult.Scraper.CopyLine` | c64/agent.asm:1552-1606 | the bytes copied from one line are the text's, up to its newline or a full chunk |
| `ScreenResult.ScrapeRange` | c64/agent.asm:1435-1644 | the frames built one after the other are exactly the chunks of the right-trimmed, converted, joined lines |
| `ScreenResult.LineReads` | c64/agent.asm:1570-1596 | every cell of a line in screen memory is read as the character whose screen code it holds, all other codes and @ as blanks, and only blanks at the end are left off |
| `ScreenResult.LineShown` | c64/agent.asm:1570-1596 | a line that shows a text is scraped as that text if and only if there is no @ in it |
| `ScreenResult.TextShown` | c64/agent.asm:1528-1606 | lines that show texts are scraped as these texts joined by newlines |
| `ScreenResult.ChunksCover` | c64/agent.asm:1468-1493 | at most nine chunks, enough for the text, the last one never full |
| `ScreenResult.TextArrives` | bridge/relay/relay.go:339-365 | the bridge's handler turns the scraped frames back into exactly that text |
| `ScreenResult.ShownTextArrives` | bridge/relay/relay.go:339-365 | so the bridge gets the lines the screen shows |
| `SoulPrompt.ChunkOffset` | c64/agent.asm:2353-2373 | repeated 16-bit addition gives 120 times the chunk number |
| `SoulPrompt.ChunkLength` | c64/agent.asm:2382-2400 | 120 characters or what remains, by 16-bit subtraction |
| `SoulPrompt.Prompter.BuildNextPromptChunk` | c64/agent.asm:2353-2491 | the buffer holds the SYSTEM frame of the current chunk of the converted prompt; the last chunk ends the transfer and rewinds it |
| `SoulPrompt.SendPrompt` | c64/agent.asm:2353-2491 | the frames built one after the other are exactly the chunks of the converted prompt |
| `SoulPrompt.WrittenIsConverted` | c64/agent.asm:2425-2448 | an ASCII text stored in the C64's mixed-case characters is converted back to itself |
| `SoulPrompt.OnlyLettersChange` | c64/agent.asm:2425-2448 | a byte that the conversion changes is a letter's, and becomes that letter |
| `SoulPrompt.ChunksCover` | c64/soul.asm:20-21 | the number of chunks is the smallest that holds the prompt |
| `SoulPrompt.SoulArrives` | bridge/relay/relay.go:313-336 | in whatever order the chunks arrive, the bridge has the whole prompt once all have, and not before |
| `ChatText.ToASCII` | bridge/serial/ascii.go:26-42 | replacement table and filter, over every code point |
| `ChatText.AsciiConcat` | bridge/serial/ascii.go:26-42 | converting piece by piece is the same as converting the whole, but in the middle of a CR LF |
| `ChatText.UmlautsSpelled` | bridge/serial/ascii.go:17-23 | umlauts of either case are spelled with an e, the sharp s with two s |
| `ChatText.PunctuationPlain` | bridge/serial/ascii.go:5-16 | typographic quotes, dashes, the ellipsis and the fixed space become their plain counterparts, ends of line LF, everything else outside ASCII a question mark |
| `ChatText.AsciiFixesPlain` | bridge/serial/ascii.go:5-42 | exactly texts of newline, tab and printable ASCII pass unchanged; converting twice changes nothing |
| `ChatText.ToC64Text` | bridge/serial/ascii.go:47-75 | upper case and the substitutions for what the text path does not carry |
| `ChatText.C64TextSpelled` | bridge/serial/ascii.go:47-75 | place by place: a letter of either case becomes its capital, brackets and braces parentheses, the backquote an apostrophe, the backslash a slash, and whatever else is outside the alphabet a space |
| `ChatText.CaseMakesNoDifference` | bridge/serial/ascii.go:47-48 | writing the capitals of a reply small changes nothing |
| `ChatText.PunctuationSpelled` | bridge/serial/ascii.go:61 | the punctuation of the reply alphabet, character by character |
| `ChatText.C64TextFixesPlain` | bridge/serial/ascii.go:47-75 | exactly texts in the reply alphabet pass unchanged |
| `ChatText.MsgFrame` | bridge/relay/relay.go:489-495 | a seven-bit frame the C64 can take: the converted text, cut only when longer than 122 bytes |
| `ChatText.ExecFrame` | bridge/relay/relay.go:1038-1048 | the first line of the converted command, cut only at 122 bytes, in a seven-bit frame |
| `ChatText.TextLane.SendNextTextChunk` | bridge/relay/relay.go:1116-1145 | chunks and remaining queue together are always the queued reply; each chunk nonempty, full except the last |
| `EndToEnd.InjectedFrameDecodes` | bridge/serial/frame.go:252-257 | a frame with its id, bit 7 arbitrary, decodes, and stripping returns id, type and payload |
| `EndToEnd.BridgeFramesFit` | c64/agent.asm:1736-1836 | every frame the bridge builds is dispatched unchanged by the C64 and decoded alike |
| `EndToEnd.AckReachesBridge` | c64/agent.asm:1287-1306 | the acknowledgment the C64 puts on the line is decoded, and ends the bridge's wait for that id and no other |
| `EndToEnd.AckReachesC64` | bridge/relay/relay.go:1658-1661 | the bridge's acknowledgment is dispatched by the C64's parser and passes the guard for that id and no other |
| `EndToEnd.FreshOnce` | bridge/relay/relay.go:1536-1568 | however often each frame arrives, and with up to 62 in a row missing, the bridge takes every frame that arrives once, in the order built |
| `EndToEnd.LossyLine` | bridge/relay/relay.go:1536-1568 | for every run of the C64's sender over a line that loses and damages copies, with noise and acknowledgments between them, no more of a frame arriving than went out whole: the bridge takes exactly the frames of which a copy survived, once and in order, as long as no more than 62 in a row lost all copies |
| `EndToEnd.SentIsTaken` | c64/agent.asm:880-1031 | for every run over an intact line whose acknowledgments go out between transmissions, whatever was retransmitted or given up, the bridge takes exactly the frames built, modulo bit 7 |
| `EndToEnd.WholeIsTaken` | c64/agent.asm:991-1031 | with acknowledgments anywhere, torn transmissions count as lost: the bridge takes exactly the frames of which a transmission went out whole, as long as no more than 62 in a row did not |
| `TextDelivery.ScreenArrives` | c64/agent.asm:1435-1681 | from screen memory to the bridge's handler, in every run whose RESULT frames from some point on are the scraper's, whatever frames of other types stand between them: exactly the screen's text, with its last chunk |
| `TextDelivery.ScreenArrivesOverLossyLine` | c64/agent.asm:1435-1681 | the same over every lossy line on which each RESULT frame keeps one copy |
| `TextDelivery.SomeRunDeliversTheScreen` | c64/agent.asm:1435-1681 | such a run exists for every screen and range of lines |
| `TextDelivery.ChunksAreSendable` | c64/agent.asm:2402-2470 | chunk frames survive the line if and only if their text and the number of chunks are seven-bit |
| `TextDelivery.SoulReachesBridge` | c64/agent.asm:2353-2493 | from prompt memory to the bridge's handler, in every run whose SYSTEM frames from some point on are the prompter's: the bridge ends up with the converted prompt if and only if it is seven-bit and has at most 127 chunks |
| `TextDelivery.AssembledPromptIsShort` | c64/loader.asm:676 | a prompt the assembler accepts has at most 18 chunks, so for it the condition is that its converted text is seven-bit |
| `TextDelivery.SomeRunSendsThePrompt` | c64/agent.asm:2353-2493 | such a run exists for every prompt |
| `SharedBuffer.SurvivesExactly` | c64/agent.asm:1807-1818 | as far as the parser's own stores go: from any parser state and for any bytes, a message in the receive buffer is still there if and only if nothing stored in its place ends up different |
| `SharedBuffer.SurvivesFramesExactly` | c64/agent.asm:1782-1818 | the same for a stream of intact and damaged frames with noise, on the frames alone: at every place the last frame long enough to reach it carries the message's byte |
| `SharedBuffer.FrameOverlays` | c64/agent.asm:1782-1818 | a frame lays its payload over the front of the buffer, whether or not its checksum is right |
| `SharedBuffer.AcksDamageTheMessage` | c64/agent.asm:1849-1866 | after the bytes of any acknowledgments the message's first byte is the newest one's complemented id: the parser leaves it unharmed if and only if it is empty or began with that |
| `SharedBuffer.IdOnlyFramesSpare` | c64/agent.asm:1807-1818 | the bytes of a frame that carries only its id touch no message; what its handler does is in ChatPaths |
| `AgentMachine.Machine.ReceiveByte` | c64/agent.asm:1736-1941 | a byte at the real buffers and registers does what the agent's step function says, from the parser through the gate into the handlers |
| `AgentMachine.Machine.Dispatch` | c64/agent.asm:1849-2111 | so does a frame that passed its checksum, the body being what stands behind the id in the receive buffer |
| `AgentMachine.Machine.TakeMsg` | c64/agent.asm:1957-1976 | a message is staged where it stands if no conversation is under way, and otherwise copied into the ring |
| `AgentMachine.Machine.TakeText` | c64/agent.asm:1999-2025 | refused while a command waits; else copied to the command buffer, its acknowledgment held back, an LLM frame's wait ended |
| `AgentMachine.Machine.TakeDone` | c64/guarded_queue.asm:276-289 | ends the conversation, drops a waiting reply, asks for an acknowledgment, and loads the queue's head if there is one |
| `AgentMachine.Machine.LoadHead` | c64/guarded_queue.asm:44-86 | the oldest queued message is copied over the message's place in the receive buffer and staged, whatever was there |
| `AgentMachine.Machine.Service` | c64/agent.asm:886-1031 | a pass: the held-back acknowledgment comes due and may load the queue; otherwise aging, the message before the reply, and at most 16 bytes |
| `AgentMachine.Drive` | c64/agent.asm:886-2111 | the real machine, switched on and driven through any events it can go through, is in the state of that run and has put out its bytes |
| `AgentRuns.MessageGoesOutExactly` | c64/agent.asm:967-976 | from any state, the next LLM frame carries the message that waits if and only if in between no queued message was loaded, no other staged, and the bytes received spared its place |
| `AgentRuns.TextGoesOutExactly` | c64/agent.asm:978-989 | from any state, when its turn comes the reply goes out as a USER frame if and only if no DONE and no other TEXT or EXEC was accepted since |
| `AgentRuns.AckMeansReplySentExactly` | c64/agent.asm:890-910 | after a TEXT was accepted, in every run without DONE or another TEXT or EXEC, its acknowledgment goes out only after a pass that found its USER frame built, the send buffer drained, no wait and an empty line, if and only if no acknowledgment was still due when it was accepted |
| `AgentLine.AgentFollows` | c64/agent.asm:886-2111 | whatever the agent receives and however its passes fall, its sender goes through a run of the sender studied on its own, and builds the same frames |
| `AgentLine.OutputsAreWire` | c64/agent.asm:991-1031 | and what it puts on the line is that run's line |
| `AgentLine.AgentIsTaken` | bridge/relay/relay.go:1536-1568 | the bridge takes from the agent's bytes exactly the frames the agent built, once and in order, modulo bit 7, if acknowledgments go out between transmissions |
| `ChatPaths.FrameArrives` | c64/agent.asm:1736-1941 | a frame of the bridge, byte by byte, is handed to gate and handlers with its payload in front of the receive buffer |
| `ChatPaths.MessageArrives` | c64/agent.asm:1949-1976 | the bridge's chat text is staged if no conversation is under way and else at the end of the queue, over the front of the receive buffer in either case |
| `ChatPaths.DoneArrives` | c64/guarded_queue.asm:276-289 | a new DONE ends the conversation, drops a reply that waits and is acknowledged, everything else as it was; with messages queued the oldest is staged and the conversation goes on |
| `ChatPaths.DoneThenMessage` | c64/guarded_queue.asm:276-289 | after a DONE with nothing queued the next message is staged, not queued |
| `ChatPaths.TextArrives` | c64/agent.asm:1999-2025 | a new TEXT is refused while a command waits and no program runs, else it waits in the command buffer with its acknowledgment held back, everything else as it was |
| `ChatPaths.ExecArrives` | c64/agent.asm:2086-2111 | a new EXEC leaves its command in the command buffer unless BASIC is busy, and is acknowledged in either case |
| `ChatPaths.OtherArrives` | c64/agent.asm:1931-1941 | every other new frame of the bridge is acknowledged and touches neither messages nor texts |
| `ChatPaths.StaleArrives` | c64/agent.asm:1910-1920 | an old frame is acknowledged again, unless it is a TEXT while one is held back, and does nothing else |
| `ChatPaths.AckArrives` | c64/agent.asm:1849-1866 | the bridge's acknowledgment ends the wait for the frame it names and for no other; for an LLM frame it also stages the oldest queued message |
| `ChatPaths.IdlePass` | c64/agent.asm:946-989 | a pass over an idle sender builds exactly one frame, a message before a reply, with the payload that waits, and takes note of it |
| `ChatPaths.BusyPass` | c64/agent.asm:912-945 | while a frame is sent or waits, a pass changes nothing but the sender, and that frame stays |
| `ChatPaths.ReleasingPass` | c64/agent.asm:890-910 | a pass that finds the reply gone, no wait and the line empty makes the held-back acknowledgment due, and stages the oldest queued message if there is one |
| `ChatPaths.HeartbeatGoesOut` | c64/guarded_queue.asm:291-343 | the heartbeat's LLM frame carries its event and nothing else |
| `ChatPaths.LoadStages` | c64/guarded_queue.asm:44-86 | each of the three loads stages the oldest queued message, whatever waited before |
| `ChatPaths.MessageReachesBridge` | c64/guarded_queue.asm:230-264 | in every run from power-on: the bridge takes the message that waits, at its place among all frames, if and only if no load and no other staging came in between and the bytes received spared it |
| `ChatPaths.FramesSpareTheMessage` | c64/guarded_queue.asm:230-264 | the same where a stream of frames is received in between, with the condition on the frames |
| `ChatPaths.ChatDirect` | c64/agent.asm:1949-1976 | the whole way for a chat text that finds no conversation under way, from the bridge's bytes to the bridge's LLM frame, under that condition |
| `ChatPaths.ChatQueued` | c64/guarded_queue.asm:44-86 | the same for a queued message, from the event that loads it |
| `ChatPaths.TextToUser` | c64/agent.asm:1999-2025 | from the bytes of a TEXT to the pass at which its turn comes: the USER frame is built, and taken by the bridge unchanged, if and only if no DONE and no other TEXT or EXEC was accepted in between |
| `ChatPaths.DoneReplacesTheMessage` | c64/guarded_queue.asm:276-289 | an id-only DONE with a message queued spares every byte and yet replaces the message that waits |
| `ChatPaths.HeldBackAckCostsAMessage` | c64/agent.asm:890-910 | from any ordinary conversation with one message queued, a short reply and then a new message lead to a pass that loads the queued message over the new one with nothing received |

## Left out

- GoStreams.DecodeAllRecovers: after a damaged frame whose raw checksum reads $FE, a frame with another sync byte, noise that reads as a known type, and one byte of noise directly before a frame are excluded; two of the three have their exact outcome in SyncByteMatters and NoiseAfterMatters. Frames damaged in more than one byte, or in sync, type or length, are not covered; a seven-bit checksum does not catch all of them.
- C64Streams.ParserRecovers: two bytes of noise after a damaged checksum that looks like a sync are excluded; some such streams are still recovered, depending on the values of the noise.
- VerifiedSend.ConfirmedMeansAccepted: "accepted" means handed to the command handlers; whether a handler then refuses (a TEXT while a command is waiting) is in TextAdmission.
- VerifiedSend.AcknowledgedMeansTaken: the bridge's queue of due acknowledgments and its line are one queue.
- VerifiedSend.SafeUpTo62: one reliable bridge frame is outstanding at a time; overlapping chat messages (bridge/relay/relay.go:586-589) put a second one in flight, and then an older lost frame can be acknowledged as stale.
- SoulPrompt.Prompter.BuildNextPromptChunk: the prompt is at least one character and ends within the address space above its base.
- ChatText.ToASCII: text is a sequence of code points; malformed UTF-8 is not modelled.
- Outbound.BuildNext: STATUS, SYSTEM and RESULT frames are laid out by one builder that seals a given payload; the real builders of the last two are in ScreenResult and SoulPrompt.
- Outbound.ServiceOutbound: the frame to build is a parameter; the choice between a message and a reply, the release of a held-back acknowledgment and the load it causes are in AgentMachine.Machine.Service.
- AgentMachine.Machine.Service: which STATUS, SYSTEM or RESULT frame is pending is a parameter, it comes before message and reply as in the code; a pass builds or loads only while the parser hunts, since builders, loads and parser share two registers and the receive buffer, and what a build in the middle of a received frame does to that frame is not modelled.
- AgentMachine.Drive: that BASIC runs, that a command waits, that the conversation timed out and that the agent has been idle long enough for a heartbeat are events that may happen whenever the code allows them and oftener.
- EndToEnd.SentIsTaken: acknowledgments keep out of transmissions; the code also lets them out in the middle of one, which EndToEnd.WholeIsTaken covers as far as the decoder gets past such a transmission.
- LineRuns.InterruptedIsSkippable: acknowledgments inside the first three bytes, several in one transmission, and five foreign bytes that leave the checksum right are not covered.
- ChatPaths.ChatDirect: the bytes of the message arrive with nothing between them, and acknowledgments keep out of transmissions.
- AgentRuns.AckMeansReplySentExactly: ids of other frames differ from the TEXT's in between; the wait for the USER frame's acknowledgment may also have ended by an inbound frame or by giving up, as SenderRuns.InvStep has it.
- Relay.Relay.WaitForAckID: frames come from a sequence, and an empty sequence stands for the timeout; arrivals during a wait are added between attempts.
- UserQueue.Ring.Enqueue: a slot holds one message; the bytes inside a slot and the event type stored with it are not modelled.
- Real time: sleeps, quiet windows and timeouts; a timeout is a step that may happen at any moment.
- `drainC64OutboundBeforeText` and the drains that requeue at the back of the queue (bridge/relay/relay.go:894, 925, 1162-1168): the claims about order and conservation are for the wait functions.
- The zero-length status probe, the prime exchange and seeding the id counter from outside.
- Interleaving finer than one call in the relay, and the bound of three overlapping messages, which the code tests and uses without a lock.
- Link errors while sending; index registers of the 6502 loops are unbounded integers within ranges that the preconditions keep below 128.
- The overflow lane has the same code as the message gate and is not repeated.
- Screen editor, keystroke injection, READY detection, interrupts, sprites, the KERNAL's serial driver; the screen is frozen while it is scraped.
- Chat back ends, language-model clients, history, diagnostics, stored tokens.
