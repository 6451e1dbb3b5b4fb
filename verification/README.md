# A verified model of the tcp-handler wire protocol

tcp-handler sends messages over a byte stream in four variants: raw, compress, encrypt and
compress_encrypt. The project models two endpoints joined by two FIFO byte pipes and proves
what the variants promise, in two parts.

**The session.** An encrypting endpoint has one cipher cell, a key and a nonce, that its
sends and receives both take and replace. A send draws a new nonce, puts it in front of the
message, seals under the old nonce and stores the new one; a receive opens under its nonce
and stores the one it finds. The cells of the two endpoints agree only through the packets
in flight, so the link is half-duplex: it works for some interleavings and dies for all the
others. The project says exactly which.

**The byte layer.** Framing (a length, then the body, under a size limit), the handshake
(head, checks, answer), and on top of it the key exchange: parsers and printers that invert
each other with exact consumption, agreement of the two outcomes, and progress on bounded
pipes.

## How the model is laid out

* `Wire`, `LengthCodes`, `Framing`, `Handshake`, `KeyExchange`: what is written, as
  functions to bytes, and what is read, as incremental parsers.
* `Crypto`, `Stacks`: the cipher, the compressor and RSA as records of functions with laws,
  and the four variants as one pipeline over them.
* `NonceLink`: the link as a state machine. A send is `Seal` then `Write`, a receive `Read`
  then `Open`, and any list of events is a run. A packet is the nonce that sealed it, the
  nonce it carries and its message.
* `NonceChain`, `NonceDeath`, `LinkRuns`, `Oversize`, `NonceUse`, `NonceReuse`,
  `RequestResponse`: the theorems on runs. `Fifo` is the specification, two independent
  message queues that fix every outcome of a run.
* `ByteLink`, `ByteRuns`, `ByteDialogues`, `Connections`: the same link over framed, sealed bytes, which the
  link of nonces simulates event for event, so that the theorems carry over to the stacks.
* `CellTasks`: the cell under two tasks with lock, take, crypt, replace and unlock as
  separate steps. `CellEvents` shows that the seals and opens of the link, which are single
  events there, do what these steps do.
* `Progress`: the handshake byte by byte on pipes of bounded capacity.
* `Streams`, `StreamIo`, `CommonProtocol`, `PlainProtocols`, `CipherProtocols`,
  `TcpHandlers`: the functions of the crate in imperative form, on a source that delivers
  arbitrary chunks, a buffered writer, message buffers of several segments and the cipher
  cell. `Transport` ties one call of send or receive to the events of the link.

A seal *crosses* if a packet of the peer is unprocessed at that moment: sealed and about to
be written, on the wire, or read but not opened. A run is *fitting* if every message passes
the cipher and the sender's size check.

## What is assumed

* The cipher is idealised: a packet never opens under another nonce of the same key.
* The nonces drawn in a run are pairwise distinct and differ from the one the handshake set.
  Where this matters it is the predicate `Fresh`; the positive results do not need it.
* RSA and DEFLATE are inverse pairs behind their interfaces. Each interface has a toy
  instance that meets its laws (`Connections.ToyNetsAreUsable`, `Crypto.ToyRsaLawful`).
* The layouts of lengths, boolean pairs, strings and byte vectors belong to the
  `variable-len-reader` crate, which is not part of this model. The theorems hold for every
  incremental length code that inverts its encoding; the base-128 varint is one. A boolean
  pair is taken to be one byte, a 16-bit number two bytes with the high one first, and strings
  and byte vectors a length and their bytes.
* The buffered writer follows tokio's BufWriter, which is not part of this model either.

## Where the promise needed a condition

* *Nonce single use.* An encrypting send replaces its nonce before the size check. If a
  message is too large its packet is dropped, and the peer's cell still holds the nonce that
  sealed it. So a nonce can seal twice without any crossing (`Connections.DroppedNonceIsReused`).
  In a non-crossing run a nonce does so iff some side seals an oversize message and its peer
  seals afterwards (`NonceReuse.SingleUseIffNoLoss`); over all runs it does so in this case and
  when a seal that crosses succeeds, and in no other (`NonceReuse.SingleUseExactly`). On the
  wire every nonce is used once in every non-crossing run (`NonceUse.WireSingleUse`).
* *A rejected client.* It comes free when the server drops its ends, but on unbuffered
  streams the server gets there only if its answer or the client's unread bytes fit into a pipe
  (`Progress.DroppingFreesClient`, and for the protocols `SharedDropEnds` and `KeyDropEnds`).
  It then has the reason iff it could write its whole message before the server dropped.
  Otherwise each side waits for the other to read: on pipes of one byte this is where every
  schedule ends for a client of the wrong protocol (`Progress.RejectedClientDeadlocks`).
* *A rejected handshake is not flushed.* With `auto_flush` on, `server_start` returns before
  its flush when it rejects. What a client learns before the end of the stream depends on the
  capacity of the server's writer. For a wrong protocol it is the reason iff the capacity is
  at most one byte, and an unexpected end otherwise. For a wrong identifier or version it is
  the reason if the capacity is at most one byte, and an unexpected end if the server's own
  string, the last thing written, is shorter than the capacity, whether the answer fits or not
  (for an empty string its length field counts). A longer string leaves the buffer as far as
  the transport takes it, which no condition before the call decides
  (`PlainProtocols.ServerStart`, `CipherProtocols.ServerStart`).

## Model

| member | source | states |
|---|---|---|
| Wire.ExactConsumption | src/protocols/common.rs:158-171 | an incremental reader takes exactly the bytes its verdict needs, and no shorter input gives a verdict |
| LengthCodes.VarintLawful | src/protocols/common.rs:236-250 | the base-128 varint with overflow check decodes every usize it encodes, byte by byte, with nothing left over |
| LengthCodes.VarintCovers | src/protocols/common.rs:236-250 | it covers every length below 2 to the 64th |
| Framing.PacketRoundTrip | src/protocols/common.rs:236-250 | a packet within the reader's limit comes back exactly and what follows stays; above it the reader reports TooLarge with only the length taken |
| Framing.FramesRoundTrip | src/protocols/common.rs:236-250 | for every list of messages, repeated reads return exactly that list and leave any suffix |
| Framing.FramesInjective | src/protocols/common.rs:236-250 | two different message lists never have the same encoding |
| Framing.PacketPrefixFree | src/protocols/common.rs:244-250 | no proper prefix of a packet is read as a packet |
| Framing.FramesCutShort | src/protocols/common.rs:244-250 | from a stream of packets cut anywhere the reads return the packets that have arrived, and the next one waits for more |
| Stacks.PipelineInversion | src/protocols/compress_encrypt.rs:307-376 | a peer with the sender's cell recovers exactly the message and the sender's new nonce, for every stack and message |
| Stacks.SealFailure | src/protocols/encrypt.rs:305-307 | sealing succeeds iff the cell is occupied and the cipher accepts the body; otherwise the cell is left empty |
| Stacks.WrongNonce | src/protocols/encrypt.rs:351-357 | a packet met with any other nonce gives an AES failure and empties the cell; an empty cell gives Broken |
| Stacks.ShortPlaintextBreaks | src/protocols/compress_encrypt.rs:364-373 | an authentic packet that unpacks to under 12 bytes leaves the cell broken, any other is split at byte 12 |
| Stacks.GarbageBreaks | src/protocols/compress_encrypt.rs:364-373 | bytes that do not inflate are an I/O error, and with a cipher the cell is lost |
| Stacks.PacketLayout | src/protocols/encrypt.rs:300-310 | the 12 bytes of the next nonce stand in front of the message, under the compressor if there is one, and sealing adds 16 bytes |
| NonceChain.HealthyRun | src/protocols/encrypt.rs:293-361 | the whole-run invariant: packets in flight chain the receiver's cell to the sender's, nothing is lost or reordered, and every outcome, waiting included, is that of two queues |
| NonceChain.OpenSucceeds | src/protocols/encrypt.rs:346-361 | in a synced state the packet in hand always opens, to its message |
| LinkRuns.ChainInvariant | src/protocols/encrypt.rs:293-361 | fitting and non-crossing runs have no failure, deliver prefixes, and all of it with equal cells once quiet |
| LinkRuns.FirstUnsafeEvent | src/protocols/encrypt.rs:293-361 | a run that is not safe has a first unsafe event, and nothing sealed from there on is ever delivered |
| LinkRuns.CrossingIsFatal | src/protocols/encrypt.rs:293-361 | after the first crossing no receive succeeds in either direction, whatever is sealed from there on, of whatever size |
| LinkRuns.NextOpenFails | src/protocols/encrypt.rs:351-357 | every open of either side after a crossing fails and leaves an empty cell, the next one with an AES failure if the cipher took the side's own messages, later ones with Broken |
| LinkRuns.EmptyForEver | src/protocols/common.rs:315-319 | an empty cell stays empty and every later operation that reaches it reports Broken |
| LinkRuns.FaultFreeIffNonCrossing | src/protocols/encrypt.rs:293-361 | a fitting run that ends quiet is fault-free iff no seal crosses, and iff its outcomes are those of two queues |
| Oversize.SendOkIffFits | src/protocols/encrypt.rs:293-313 | with a working cell a send gives Ok iff the packet is within the limit, and otherwise TooLarge with size and limit |
| Oversize.EncryptedBound | src/protocols/encrypt.rs:300-310 | that is iff the message length plus 12 plus 16 is at most the limit, and then no usize sum overflows |
| Oversize.OversizeIsHarmless | src/protocols/raw.rs:220-224 | without a cipher TooLarge leaves the link exactly as it was |
| Oversize.OversizeLosesNonce | src/protocols/encrypt.rs:305-310 | with a cipher TooLarge leaves the wire as it was and the cell occupied by the new nonce |
| Oversize.OversizeIsFatal | src/protocols/encrypt.rs:305-310 | later fitting sends still give Ok, yet nothing sealed afterwards by either side is ever delivered |
| NonceUse.SingleUseMeans | src/protocols/encrypt.rs:298-307 | what single use says of a list of nonces: no two of them are equal, and none has been used before |
| NonceUse.SingleUseIffNonCrossing | src/protocols/encrypt.rs:298-307 | in fitting runs no nonce seals two packets iff no seal crosses |
| NonceUse.WireSingleUse | src/protocols/encrypt.rs:298-310 | in every non-crossing run, oversize messages included, no nonce seals two packets that reach the wire |
| NonceReuse.SingleUseExactly | src/protocols/encrypt.rs:298-310 | in every run, crossing or not, with messages of any size, no nonce seals two packets iff no crossing seal succeeds and no side seals after its peer sealed an oversize message |
| NonceReuse.SingleUseIffNoLoss | src/protocols/encrypt.rs:298-310 | in every non-crossing run, with messages of any size, no nonce seals two packets iff no side that sealed an oversize message is followed by a seal of its peer |
| Connections.DroppedNonceIsReused | src/protocols/encrypt.rs:298-310 | a concrete non-crossing run in which a nonce seals twice |
| RequestResponse.RoundsSucceed | src/streams/mod.rs:33-36 | under every schedule of a send-and-receive loop and a receive-and-send loop nothing fails or crosses, requests and responses alternate in order, the cells are equal at every start of a round, and one side can always go on |
| RequestResponse.BothSendFirst | src/streams/mod.rs:33-36 | if both sides start with a send and both seal before either opens, with anything else in between, neither is ever given a message and every open fails |
| ByteDialogues.RoundsSucceedOverBytes | src/streams/mod.rs:33-36 | the same over sealed and framed bytes, for every stack, with empty pipes and equal cells at every start of a round |
| ByteDialogues.BothSendFirstOverBytes | src/streams/mod.rs:33-36 | two first seals before any open mute an encrypting stack over bytes |
| ByteLink.RunMatches | src/protocols/compress_encrypt.rs:307-376 | over bytes every run of every stack has the outcomes of the link of nonces, and matching states |
| ByteLink.ReadTooLarge | src/protocols/common.rs:244-250 | a packet above the reader's limit fails the read of the link with TooLarge, its body left in the pipe |
| ByteRuns.StacksRefineQueues | src/protocols/compress_encrypt.rs:307-376 | raw and compress have the outcomes of two message queues under every interleaving, encrypt and compress_encrypt under the non-crossing ones |
| ByteRuns.EncryptedRefinesIffNonCrossing | src/protocols/compress_encrypt.rs:307-376 | over bytes a fitting run that ends quiet has the outcomes of the queues, and no failure, iff it does not cross |
| Connections.EqualLimitsNeverTooLarge | src/protocols/common.rs:223-250 | with equal limits no read of either side fails, in any run of any stack |
| ByteRuns.WiderReaderNeverTooLarge | src/protocols/common.rs:223-250 | if the reader's limit is at least its sender's, no read of that side fails, in any run of any stack, whatever is sealed on either side and whatever the other direction carries |
| ByteRuns.NoReceiveIsTooLarge | src/protocols/common.rs:223-250 | with a narrower limit the same holds if every packet that the peer lets through is within it |
| Transport.SendIsSealThenWrite | src/protocols/encrypt.rs:293-313 | one call of send is its Seal and its Write on the link |
| Transport.RecvIsReadThenOpen | src/protocols/encrypt.rs:346-361 | one call of recv is its Read and its Open on the link, or its failing Read alone, which leaves the cell |
| Transport.RecvTooLarge | src/protocols/encrypt.rs:346-351 | a packet above the limit is refused with only its length taken, and the cell keeps its credential |
| Transport.RecvAtTheEnd | src/protocols/encrypt.rs:346-351 | a stream that ends before or within a packet is an I/O error, and the cell keeps its credential |
| Transport.SendThenRecv | src/protocols/encrypt.rs:293-361 | what a send produces a peer with the same cell receives as the message, ending with the sender's new cell, for every stack |
| CellTasks.EveryScheduleIsAtomic | src/protocols/common.rs:306-325 | under every schedule of the two tasks the critical sections act one after the other in lock order, in each task's program order |
| CellTasks.EmptyCellMeansFailure | src/protocols/common.rs:306-325 | while unlocked the cell is empty iff an ended section failed, and all sections after the first failure report Broken |
| CellEvents.TasksDoWhatTheLinkDoes | src/protocols/common.rs:306-325 | tasks that go through the sections of a run of the link, under any schedule, leave the cell and the results of that run |
| CellEvents.SomeScheduleDoesWhatTheLinkDoes | src/protocols/common.rs:306-325 | for every run of the link there is a schedule of such tasks |
| Handshake.VariantConversions | src/protocols/common.rs:112-132 | the two conversions between variants and boolean pairs are inverse, with the pair of each variant |
| Handshake.HeadLayout | src/protocols/common.rs:88-154 | the bytes of a head: 208, 8, 166, 104, then version 0, 1, the variant's pair, the identifier and the version |
| Handshake.ReplyLayout | src/protocols/common.rs:182-207 | the bytes of an answer: the pair of each state, and behind it the server's own value of the check that failed |
| Handshake.HandshakeAgreement | src/protocols/common.rs:147-219 | both sides give Ok iff variant, identifier and predicate agree; otherwise both report the same first failing check with the other side's value; an accepted client has protocol version 1 |
| Handshake.TruncatedHead | src/protocols/common.rs:158-171 | a head cut short is never accepted, and gets the whole head's rejection or none |
| Handshake.HeadInjective | src/protocols/common.rs:147-154 | different variants, identifiers or versions never give the same head |
| Handshake.CutRejection | src/protocols/common.rs:182-219 | a rejection cut short is never taken for one; the whole of it gives the client the reason |
| Handshake.StrangerGetsNoAnswer | src/protocols/common.rs:158-201 | wrong magic bytes or magic version give InvalidStream and no answer |
| KeyExchange.KeyAgreement | src/protocols/encrypt.rs:119-260 | both sides give Ok iff the checks pass, and then hold the same 32-byte key and nonce with exactly the handshake consumed |
| KeyExchange.KeyLayout | src/protocols/encrypt.rs:119-260 | the bytes of the greeting, head, modulus, exponent, and of an acceptance, state, sealed key, nonce |
| KeyExchange.ClientOpensKey | src/protocols/encrypt.rs:196-208 | behind an acceptance a key of 32 bytes gives the credential, of any other length a panic, and one that does not decrypt an RSA error |
| KeyExchange.KeyDoesNotCompose | src/protocols/encrypt.rs:160-166 | a public key that does not compose is an RSA error of the server, without an answer |
| KeyExchange.KeyDoesNotEncrypt | src/protocols/encrypt.rs:245-260 | a key that does not encrypt is an RSA error behind the acceptance, and the client meets the end of the stream |
| Connections.EncryptedConnection | src/protocols/encrypt.rs:119-361 | an accepted handshake opens a link on which non-crossing fitting runs have the outcomes of two queues, also if the server sends before the client has read the answer |
| Progress.MoveWorks | src/protocols/common.rs:147-219 | every move on bounded pipes does some of a finite amount of work |
| Progress.EveryScheduleSettles | src/protocols/common.rs:147-219 | no schedule makes more moves than twice the bytes and two, and every one goes on to a state where nothing can move |
| Progress.FinishesIffTailFits | src/protocols/common.rs:147-219 | where a schedule settles the client is finished iff the bytes the server leaves unread fit into the pipe |
| Progress.SharedHandshakeEnds | src/protocols/common.rs:147-219 | an accepting handshake never gets stuck at any capacity; a rejected client gets its reason iff its unread strings fit |
| Progress.KeyHandshakeEnds | src/protocols/encrypt.rs:119-260 | the same with the public key behind the head |
| Progress.DroppingFreesClient | src/protocols/common.rs:182-219 | a server that drops its ends after rejecting frees the client iff the unread bytes or the answer fit into a pipe; the client has the reason iff it wrote all of its message |
| Progress.BrokenInItsWrite | src/protocols/common.rs:147-219 | in no schedule does a client that has written everything meet an I/O error |
| Progress.NoTailNoLoss | src/protocols/common.rs:182-219 | if the server leaves nothing unread, every schedule settles with the client in possession of the reason |
| Progress.SharedDropEnds | src/protocols/common.rs:147-219 | for raw and compress: iff the unread strings or the reason fit, and a client turned down for its version always learns it |
| Progress.KeyDropEnds | src/protocols/encrypt.rs:119-260 | for the encrypting protocols: the same with the public key among the unread bytes |
| Progress.RejectedClientDeadlocks | src/protocols/common.rs:147-219 | the failing input: on pipes of one byte every schedule with a client of the wrong protocol ends in a deadlock |
| CommonProtocol.Cipher.constructor | src/protocols/common.rs:308-312 | a new cell is occupied by the given credential |
| CommonProtocol.Cipher.Get | src/protocols/common.rs:315-319 | takes the credential and leaves the cell empty, or reports Broken |
| CommonProtocol.Cipher.Reset | src/protocols/common.rs:322-324 | the cell is occupied again |
| CommonProtocol.FlushIfAuto | src/protocols/common.rs:254-263 | with auto_flush everything written becomes visible, without it nothing changes |
| CommonProtocol.WriteHead | src/protocols/common.rs:147-154 | appends exactly the encoded head, however the writer takes it |
| CommonProtocol.ReadHead | src/protocols/common.rs:158-171 | has the result and consumption of the head's parser, for every chunking |
| CommonProtocol.WriteLast | src/protocols/common.rs:182-207 | appends exactly the answer and hands its argument on; a rejection that fits stays in the buffer |
| CommonProtocol.ReadLast | src/protocols/common.rs:211-219 | an earlier error is returned unread; otherwise the result and consumption of the answer's parser |
| CommonProtocol.WritePacket | src/protocols/common.rs:236-241 | appends the frame and empties the message iff it fits; otherwise nothing is written and the message keeps its bytes |
| CommonProtocol.ReadPacket | src/protocols/common.rs:244-250 | has the result and consumption of the packet's parser, for every chunking |
| PlainProtocols.ClientInit | src/protocols/raw.rs:92-96 | writes the head, all of it visible under auto_flush, and left in the buffer without it if it fits |
| PlainProtocols.ServerStart | src/protocols/raw.rs:187-191 | acceptances are flushed; a rejection that fits the buffer stays invisible, one that does not pushes out what was before it; the capacity and the last field of the answer tell whether the client learns the reason |
| PlainProtocols.RawSend | src/protocols/raw.rs:220-224 | the raw send outcome for every segmentation, visible under auto_flush and else buffered if it fits; TooLarge changes nothing |
| PlainProtocols.RawRecv | src/protocols/raw.rs:253-255 | the raw receive outcome for every chunking |
| PlainProtocols.CompressSend | src/protocols/compress.rs:236-247 | the compress send outcome for every segmentation |
| PlainProtocols.CompressRecv | src/protocols/compress.rs:279-288 | the compress receive outcome for every chunking |
| CipherProtocols.ClientInit | src/protocols/encrypt.rs:119-126 | writes head, modulus and exponent, all visible under auto_flush |
| CipherProtocols.ServerInit | src/protocols/encrypt.rs:160-166 | has the result and consumption of the greeting's parser |
| CipherProtocols.ServerStart | src/protocols/encrypt.rs:245-260 | writes the answer and returns a cell with its key and nonce; a failed RSA step comes after the acceptance is written; a rejection is visible, and learnt, as without encryption |
| CipherProtocols.ClientStart | src/protocols/encrypt.rs:196-208 | returns a cell with the credential that the answer's parser finds |
| CipherProtocols.SealInCell | src/protocols/encrypt.rs:305-307 | the critical section of a send: Broken on an empty cell, an empty cell after a failed seal, else the packet and the new nonce |
| CipherProtocols.Transmit | src/protocols/encrypt.rs:310-311 | a packet above the limit leaves the stream untouched, any other is framed, and visible under auto_flush, else buffered if it fits |
| CipherProtocols.EncryptSend | src/protocols/encrypt.rs:293-313 | cell, bytes and result of the encrypt send; the message is consumed whatever the result |
| CipherProtocols.EncryptRecv | src/protocols/encrypt.rs:346-361 | cell, leftover and result of the encrypt receive |
| CipherProtocols.CompressEncryptSend | src/protocols/compress_encrypt.rs:307-326 | the same with the nonce inside the compressed plaintext |
| CipherProtocols.CompressEncryptRecv | src/protocols/compress_encrypt.rs:359-376 | the same, opening, inflating and splitting in that order |
| TcpHandlers.Handler.Send | src/streams/mod.rs:44-46 | the send outcome of the handler's stack on its writer and cell; only raw keeps a message that it did not send |
| TcpHandlers.Handler.Recv | src/streams/mod.rs:49-51 | the receive outcome of the handler's stack on its reader and cell |
| TcpHandlers.Handler.SendRecv | src/streams/mod.rs:33-36 | a failed send reads nothing; otherwise the receive goes on with the cell the send left |

## Left out

- The internals of AES-GCM, RSA-OAEP, DEFLATE and random generation: library code behind interfaces.
- The layouts inside `variable-len-reader`, and its check that strings are valid UTF-8: not in this repository.
- Attackers, replay and forgery: the pipes are honest and first-in first-out.
- Failing writes: a stream whose peer has gone is modelled in `Progress` only, elsewhere a writer accepts bytes for ever.
- Cancelled futures, poisoned mutexes, `block_in_place` and the runtime: a step of the model either happens or does not.
- The data phase when a sender lets through packets above its reader's limit: `Framing.PacketRoundTrip` says what the first read does; the garbled reads after it are not followed further.
- Buffering in `Progress`: its reader takes exactly the bytes it needs and its writer waits for the pipe. A server behind a BufReader may free a client earlier, and one behind a BufWriter gets as far as dropping its ends if the answer fits into the buffer, so the deadlock there is that of unbuffered streams.
- Separate copies of identical handshake functions: those of raw and compress, and those of encrypt and compress_encrypt, differ in the variant only and are modelled once each.
- `src/config.rs`: the size limit is a parameter of each endpoint; changing it during a run is not modelled.
- `src/streams/{raw,compress,encrypt,compress_encrypt}.rs`: delegation to the functions modelled here.
- Error texts, Debug output and buffer capacity hints: no effect on results.
