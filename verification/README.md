# st_asio_wrapper, modelled and proved in Dafny

A model of the message stack of the `st_asio_wrapper` library: how a byte stream becomes messages, how messages
travel through the queues of a socket, and how the pool keeps its sockets. Three smaller cores of the same repository are
modelled beside it: the ICMP checksum, the message buffer of the echo server, and an echo session with the pool of
buffers it shares. `dafny verify dfyconfig.toml` checks everything.

## Structure

| file | what it holds |
|---|---|
| `Framing.dfy` | the framing formats as one recursive decoder, independent of buffers and chunks |
| `Packer.dfy` | the two packers and the round trips |
| `Unpacker.dfy`, `PrefixSuffix.dfy`, `Unbuffered.dfy`, `FixedLength.dfy` | the four unpackers as classes over in-place buffers, each proved against the decoder for every cut of the stream into chunks |
| `SocketModel.dfy` | one socket as a step machine; a step is one lock region or one handler |
| `SendInvariants.dfy`, `ReceiveInvariants.dfy`, `SocketRuns.dfy` | what every step keeps, and what follows for all runs |
| `StSocket.dfy` | the socket's methods, updating fields in place, proved to take the steps of the machine and to keep its invariants |
| `Link.dfy`, `Progress.dfy` | two sockets and the bytes between them: the end-to-end theorems; every fair run of pending events delivers everything |
| `ObjectPool.dfy` | the pool, as a machine over its lock regions and as a class |
| `Icmp.dfy` | header, checksum, and exactly which packets verify |
| `ConnMsg.dfy`, `EchoSession.dfy`, `ConnectionServer.dfy` | message buffer; session and buffer pool as a machine over their lock regions; the same as classes |

## Reading the model

- The constants are the defaults of the library: a 16-bit length head (no `HUGE_MSG`), `MSG_BUFFER_SIZE` 4000,
  `MAX_MSG_NUM` 1024. Compaction of the receive buffer is a byte move between overlapping ranges, which is what
  the `memcpy` of the source is meant to do.
- A composed read is what Boost defines: the completion condition is asked with nothing transferred and after every
  chunk; a chunk holds from one byte to all that fits; the read ends when the answer is zero or the buffer is full,
  and then the bytes are parsed. `Receive` runs a whole stream that way, with chunk sizes picked freely.
- `Scan`, `Going` and `LinkNext` are kept folded by a trigger that one lemma each (`ScanIs`, `GoingIs`, `NextIs`) supplies,
  so that reasoning about streams and runs is not burdened with details.
- Steps that are not enabled change nothing, so a run is simply a list of steps, and "in every run" is "for every
  list". All interleavings of lock regions, timers and completion handlers are lists.
- A socket runs for one connection epoch: nobody resets it, the service runs, the socket is open. A failed read ends it. (`LinkDownDrains`
  says what happens to the messages that are left when the link goes down.) `wakers` counts calls and expired timers
  that have not reached their lock yet. `on_msg_handle` leaves a message alone that it declines.
- In `StSocket.dfy` the two halves of a socket are two objects, because the only things they share are `posting` and
  the wake-up at the end of posting; `SocketRuns.dfy` joins them. `Valid` holds between the methods of a class; the
  methods that one of them calls under its locks only say what they do.
- In the echo session `starters` counts calls that have released the lock and are about to enter `do_write`; a release
  keeps the session's lock between its two checks.
- In the pool, `idle` are the objects that are unique and obsoleted, and `now` is one reading of a clock that never
  goes back; both are parameters of a call. `clear_all_closed_object` is a row of `EraseLive` steps, then a row of
  `PushClosed` steps.
- Fields named `asserted` report whether the source's own assertion holds at that point.

## What the proofs found

- `do_send_msg` clears `sending` whenever sending is disallowed, even with a write outstanding. A later attempt can then
  start a second write beside the first and overwrite the bytes that the first one is sending (`SecondWrite`; a run from
  the start does it, `SecondWriteHappens`). One write
  at a time is kept along a run if and only if no step runs `do_send_msg` with sending allowed, `sending` clear, a write
  outstanding and a message waiting (`OneWriteExactly`). In a caller's terms: if and only if, after an attempt that came
  while sending was disallowed and a write outstanding, nobody tries to send a waiting message, once sending is allowed
  again, before a write has completed (`OneWriteForCallers`).
- A socket that is closed gracefully with more posted than fits into its send buffer never dispatches again, whatever
  happens until it is reset, incoming bytes and application calls included: `posting` stays set, because the send buffer
  cannot drain, and dispatching waits for it (`HeldUpForever`). Short runs from the start lead there (`HeldUpHappens`).
- A service that stops while a message is being dispatched hands over everything else that is left, but not that
  message (`LinkDownDrains`).
- The assertion in `prepare_next_recv` fails exactly when one read filled the whole buffer and its first frame is
  malformed: an invalid head (`LengthUnpacker.RoomAfterParse`), or no prefix or no suffix (`PrefixSuffix.RoomAfterParse`),
  which is the ordinary failure of that unpacker. The reason is that `dispatch_msg` starts the next read before the
  failure is handled.
- For the same reason the link cannot simply be used on after a failure, as a comment in the source says it can
  (asio_wrapper_test/include/st_asio_wrapper_tcp_socket.h:138-139). The read that is under way when the unpacker is reset
  puts its bytes where the failed parse ended, and the unpacker looks for them at the front of the buffer
  (`ReadAfterFailure`). Without a good frame in front of the bad head it fails again whatever arrives (`FailsAgain`);
  with one, that frame's message is delivered a second time (`DeliveredAgain`). In the prefix/suffix unpacker such a read
  ends at once unless a good frame came first and is at least as long as what was left (`EndsAtOnce`).
- `prefix_suffix_unpacker::parse_msg` asserts that no message is empty. The assertion fails exactly when, where some
  frame starts, the suffix follows the prefix at once and one more byte is there (`EmptyDelivered`); every choice of
  affixes has such a stream (`EmptyMessage`).
- `unbuffered_unpacker` violates some assertion on every malformed stream, and on no other, if the read that the socket
  starts before it reports the failure is included (`ReceiveAndReadOn`). For a head of exactly `HEAD_LEN` that happens
  before anything is reported, because the completion condition takes such a head for valid (`EmptyBody`); for every
  other bad head it is the first question of the next read that runs into `assert(false)`.
- Without `FORCE_TO_USE_MSG_RECV_BUFFER` messages can overtake each other (`OvertakingWithoutForcedBuffer`); taking a
  message at once keeps the order if and only if all messages ahead of it equal it (`OrderWithoutForcedBuffer`).
- A message that is too long is packed to nothing, and an empty message is "sent" successfully without being queued
  (`PackMsg`, `DirectSendMsg`).
- The ICMP checksum is right for every body up to 131068 bytes, and for every greater length there is a packet that it
  gets wrong (`ExactlyShortBodies`).
- The echo session writes one message at a time, whatever the timing, if and only if no message is pushed into the empty
  queue while a call is on its way to `do_write` (`OneWriteExactly` in `EchoSession.dfy`). If one thread runs the handlers
  to their ends and nobody broadcasts, that never happens, and between handlers exactly one write is outstanding if and
  only if messages wait (`SerialEcho`). The server as it is started (several threads, no strand) does not keep to that,
  and then the same head can be written twice, side by side (`CrossingDoubles`, and a run from the start:
  `CrossingHappens`).

## Model

| member | source | states |
|---|---|---|
| Framing.FindFirst | asio_wrapper_test/include/st_asio_wrapper_unpacker.h:410-421 | the search yields the first occurrence, or -1 exactly when there is none |
| Framing.ScanSize | asio_wrapper_test/include/st_asio_wrapper_unpacker.h:148-167 | a verdict consumes something, is reached at the latest when the buffer is full, and never on an empty buffer: a read always makes progress |
| Framing.FindStays | asio_wrapper_test/include/st_asio_wrapper_unpacker.h:394-400 | the first suffix stays the first suffix whatever bytes follow |
| Framing.ScanFinal | asio_wrapper_test/include/st_asio_wrapper_unpacker.h:148-167 | for every format: a frame or a malformed head is judged the same however many bytes follow |
| Framing.DecodeSplit | asio_wrapper_test/include/st_asio_wrapper_unpacker.h:86-143 | cutting a stream anywhere and resuming from the unconsumed bytes decodes to the same; after a bad frame nothing more is delivered |
| Framing.DecodeRest | asio_wrapper_test/include/st_asio_wrapper_unpacker.h:104-119 | what is left over is exactly the unconsumed suffix |
| Framing.DecodePrefix | asio_wrapper_test/include/st_asio_wrapper_unpacker.h:86-143 | what a prefix of the stream yields is a prefix of what the stream yields |
| Framing.DecodeFrames | asio_wrapper_test/include/st_asio_wrapper_unpacker.h:86-122 | a stream of whole frames decodes to exactly what they carry, with nothing left |
| Framing.FeedDecodes | asio_wrapper_test/include/st_asio_wrapper_unpacker.h:126-173 | successive reads of any chunks yield what the whole stream decodes to |
| Framing.ChunkingIrrelevant | asio_wrapper_test/include/st_asio_wrapper_unpacker.h:86-173 | two cuts of one stream deliver the same messages and agree on failure, malformed streams included |
| Framing.DecodeChunk | asio_wrapper_test/include/st_asio_wrapper_unpacker.h:118-119 | a completed read yields a message or a bad frame, and after a good one the buffer wants more and has room |
| Framing.BadHeadExactly | asio_wrapper_test/include/st_asio_wrapper_unpacker.h:156-164 | bytes are judged malformed if and only if both bytes of the head are there and it is, in network byte order, at most 2 or more than 4000 |
| Framing.MalformedLength | asio_wrapper_test/include/st_asio_wrapper_unpacker.h:94-121 | a stream is malformed if and only if some frame's head is so |
| Framing.BadAffixesExactly | asio_wrapper_test/include/st_asio_wrapper_unpacker.h:385-403 | bytes are judged malformed if and only if as many as the prefix are there and differ from it, or they fill the buffer and hold no suffix behind the prefix |
| Framing.MalformedAffixed | asio_wrapper_test/include/st_asio_wrapper_unpacker.h:434-449 | a stream is malformed if and only if that holds where some frame starts |
| Framing.FixedExactly | asio_wrapper_test/include/st_asio_wrapper_unpacker.h:321-342 | every so many bytes are a message, and nothing is ever malformed |
| Packer.LengthFrameUnique | asio_wrapper_test/include/st_asio_wrapper_packer.h:93-111 | the unpacker recognises exactly the frames of the bodies that fit, and each as its own body |
| Packer.LengthFrameExactly | asio_wrapper_test/include/st_asio_wrapper_unpacker.h:94-116 | bytes start with a whole frame of a body if and only if they start with that body's frame and the body fits |
| Packer.NetworkOrder | asio_wrapper_test/include/st_asio_wrapper_packer.h:95-111 | on the wire a frame is its whole length, high byte first, and the body |
| Packer.LengthMsgCount | asio_wrapper_test/include/st_asio_wrapper_unpacker.h:94-116 | every delivered message fits, and one parse yields at most a third as many messages as it has bytes |
| Packer.LengthDecodes | asio_wrapper_test/include/st_asio_wrapper_unpacker.h:94-116 | nothing is skipped or made up: every byte string is the frames of the messages it decodes to, followed by the rest |
| Packer.LengthRoundTrip | asio_wrapper_test/include/st_asio_wrapper_packer.h:84-115 | packing any list of non-empty bodies that fit, concatenating and decoding gives the list back, with nothing left |
| Packer.AffixFrameScans | asio_wrapper_test/include/st_asio_wrapper_unpacker.h:381-407 | a non-empty body survives prefix/suffix framing if and only if it fits and its first suffix is the one that ends it |
| Packer.AffixFrameExactly | asio_wrapper_test/include/st_asio_wrapper_unpacker.h:393-400 | bytes start with a whole frame of a body if and only if they start with prefix, body and suffix within the buffer, with no earlier suffix, and are longer than both affixes |
| Packer.AffixRoundTrip | asio_wrapper_test/include/st_asio_wrapper_packer.h:150-170 | all lists of such bodies come back from the concatenated frames |
| Packer.MsgSizeCheck | asio_wrapper_test/include/st_asio_wrapper_packer.h:34-54 | the exact total length or -1, although the sum wraps at 64 bits |
| Packer.JoinedAppend | asio_wrapper_test/include/st_asio_wrapper_packer.h:109-111 | pieces are joined one behind the other |
| Packer.JoinedOne | asio_wrapper_test/include/st_asio_wrapper_packer.h:109-111 | a piece is taken as it is, and a null pointer for nothing |
| Packer.PackMsg | asio_wrapper_test/include/st_asio_wrapper_packer.h:84-115 | one frame that scans to the joined pieces, or nothing for an empty or oversized body; native: the bare bytes |
| Packer.PackAffixMsg | asio_wrapper_test/include/st_asio_wrapper_packer.h:150-170 | prefix, joined pieces, suffix, or nothing for an empty or oversized body |
| LengthUnpacker.Unpacker.CompletionCondition | asio_wrapper_test/include/st_asio_wrapper_unpacker.h:148-167 | in every state: stops on an error; caches the length as soon as the head is there; while none is cached, stops exactly on a verdict on the first frame; with one cached, asks for exactly that many bytes |
| LengthUnpacker.Unpacker.ParsePositions | asio_wrapper_test/include/st_asio_wrapper_unpacker.h:86-122 | the positions of exactly the messages the buffer decodes to; what remains is the undecoded suffix |
| LengthUnpacker.Unpacker.ScanBuffer | asio_wrapper_test/include/st_asio_wrapper_unpacker.h:92-116 | the two-state loop advances over whole frames only and stops exactly where none follows |
| LengthUnpacker.Unpacker.ParseMsg | asio_wrapper_test/include/st_asio_wrapper_unpacker.h:126-143 | delivers what the buffer decodes to, also in front of a bad frame; the remainder moves to the front on success only |
| LengthUnpacker.Unpacker.PrepareNextRecv | asio_wrapper_test/include/st_asio_wrapper_unpacker.h:169-173 | the next chunk goes behind the remainder; the assertion says that there is room |
| LengthUnpacker.Unpacker.ResetState | asio_wrapper_test/include/st_asio_wrapper_unpacker.h:125 | nothing is remembered, and a read can start |
| LengthUnpacker.ReadSome | asio_wrapper_test/include/st_asio_wrapper_unpacker.h:126-167 | whatever the chunk, exactly what the buffered bytes decode to is delivered and exactly the undecoded suffix stays |
| LengthUnpacker.Room | asio_wrapper_test/include/st_asio_wrapper_unpacker.h:148-173 | within a stream there is always room for a chunk, and a fresh read asks for more |
| LengthUnpacker.Receive | asio_wrapper_test/include/st_asio_wrapper_unpacker.h:86-173 | any stream, any chunk sizes: the messages of the decoder, failure if and only if some frame's head is bad, the buffer is the unconsumed suffix |
| LengthUnpacker.RoomAfterParse | asio_wrapper_test/include/st_asio_wrapper_unpacker.h:169-173 | the next read has room if and only if the parsed bytes did not fill the buffer behind an invalid first head |
| LengthUnpacker.FullBufferWithBadHead | asio_wrapper_test/include/st_asio_wrapper_unpacker.h:169-173 | there is such an input |
| LengthUnpacker.ReadAfterFailure | asio_wrapper_test/include/st_asio_wrapper_tcp_socket.h:183-193 | the read under way while the unpacker is reset ends at once behind a head of at most HEAD_LEN; otherwise its bytes, in any chunks, are taken to be at the front of the buffer, it completes exactly on a verdict on those or a full buffer, and delivers exactly what they decode to |
| LengthUnpacker.FailsAgain | asio_wrapper_test/include/st_asio_wrapper_tcp_socket.h:138-139 | without a good frame in front of the bad head, such a read delivers nothing, and fails again unless it is a single byte |
| LengthUnpacker.DeliveredAgain | asio_wrapper_test/include/st_asio_wrapper_tcp_socket.h:138-139 | with a good frame in front no longer than what was left and than the chunk, its message is delivered a second time |
| PrefixSuffix.PrefixSuffixUnpacker.Memmem | asio_wrapper_test/include/st_asio_wrapper_unpacker.h:410-421 | the first occurrence of arbitrary bytes, or -1 if and only if there is none |
| PrefixSuffix.PrefixSuffixUnpacker.PeekMsg | asio_wrapper_test/include/st_asio_wrapper_unpacker.h:381-407 | stops exactly on a verdict, at once on a wrong prefix, and remembers the size of the frame found |
| PrefixSuffix.PrefixSuffixUnpacker.CompletionCondition | asio_wrapper_test/include/st_asio_wrapper_unpacker.h:464-473 | stops exactly on an error or a verdict on the buffered bytes, at once on a wrong prefix |
| PrefixSuffix.PrefixSuffixUnpacker.ParseMsg | asio_wrapper_test/include/st_asio_wrapper_unpacker.h:425-458 | delivers what the buffer decodes to; `first_msg_len > min_len` holds at every extraction exactly when at no frame's start the suffix follows the prefix at once |
| PrefixSuffix.PrefixSuffixUnpacker.Extract | asio_wrapper_test/include/st_asio_wrapper_unpacker.h:434-449 | the loop advances over whole frames only, and its flag tells malformed bytes from incomplete ones |
| PrefixSuffix.PrefixSuffixUnpacker.PrepareNextRecv | asio_wrapper_test/include/st_asio_wrapper_unpacker.h:475-479 | the next chunk goes behind the remainder |
| PrefixSuffix.ReadSome | asio_wrapper_test/include/st_asio_wrapper_unpacker.h:425-473 | whatever the chunk, exactly what the buffered bytes decode to is delivered and the rest stays |
| PrefixSuffix.Room | asio_wrapper_test/include/st_asio_wrapper_unpacker.h:464-479 | within a stream there is always room for a chunk, and a fresh read asks for more |
| PrefixSuffix.Receive | asio_wrapper_test/include/st_asio_wrapper_unpacker.h:381-479 | any stream, any chunk sizes: the messages of the decoder; failure if and only if, where some frame starts, the prefix is wrong or a full buffer holds no suffix; always room; the assertion fails exactly on streams with an empty frame |
| PrefixSuffix.EmptyFrame | asio_wrapper_test/include/st_asio_wrapper_unpacker.h:393-400 | the first frame is empty if and only if the bytes start with prefix and suffix and one more byte is there |
| PrefixSuffix.EmptyDelivered | asio_wrapper_test/include/st_asio_wrapper_unpacker.h:434-440 | an empty message is delivered if and only if at some frame's start the suffix follows the prefix and one more byte is there |
| PrefixSuffix.EmptyMessage | asio_wrapper_test/include/st_asio_wrapper_unpacker.h:436 | every choice of affixes has a stream that violates the assertion |
| PrefixSuffix.RoomAfterParse | asio_wrapper_test/include/st_asio_wrapper_unpacker.h:475-479 | the next read has room if and only if the parsed bytes did not fill the buffer, or start with the prefix and hold a suffix behind it |
| PrefixSuffix.FullBufferWithoutSuffix | asio_wrapper_test/include/st_asio_wrapper_unpacker.h:475-479 | every choice of affixes has a full buffer with the right prefix that leaves no room |
| PrefixSuffix.ReadAfterFailure | asio_wrapper_test/include/st_asio_wrapper_tcp_socket.h:183-193 | the read under way while the unpacker is reset ends at once if the front of the buffer, as long as what was left, is a verdict; otherwise its bytes, in any chunks, are taken to be at the front of the buffer |
| PrefixSuffix.EndsAtOnce | asio_wrapper_test/include/st_asio_wrapper_tcp_socket.h:183-193 | it does end at once unless a good frame came first and is at least as long as what was left |
| Unbuffered.UnbufferedUnpacker.CompletionCondition | asio_wrapper_test/include/st_asio_wrapper_unpacker.h:268-296 | judges a head once it is complete and allots a body of that size; the unsigned subtraction turns heads 0 and 1 into failures |
| Unbuffered.UnbufferedUnpacker.ParseMsg | asio_wrapper_test/include/st_asio_wrapper_unpacker.h:245-264 | head and body parses alternate; a complete body is delivered as it is |
| Unbuffered.ReadHead | asio_wrapper_test/include/st_asio_wrapper_unpacker.h:245-296 | a chunk of a head agrees with the decoder, except that the head HEAD_LEN violates the assertion |
| Unbuffered.ReadBody | asio_wrapper_test/include/st_asio_wrapper_unpacker.h:245-296 | a chunk of a body agrees with the decoder, and the assertions hold |
| Unbuffered.Room | asio_wrapper_test/include/st_asio_wrapper_unpacker.h:268-298 | within a stream a chunk has room for exactly the rest of the head, or of the body that the head announced; a fresh read asks for more, and the assertions hold |
| Unbuffered.Receive | asio_wrapper_test/include/st_asio_wrapper_unpacker.h:237-298 | on every stream the messages of the default unpacker; up to the failing parse the same failures, except that a head announcing an empty body violates the assertion, and nothing else does |
| Unbuffered.ReadAfterFailure | asio_wrapper_test/include/st_asio_wrapper_unpacker.h:292-293 | the first question of the read that follows a failure violates the assertion |
| Unbuffered.ReceiveAndReadOn | asio_wrapper_test/include/st_asio_wrapper_tcp_socket.h:183-193 | up to and including that question some assertion is violated if and only if some frame's head is bad |
| Unbuffered.EmptyBody | asio_wrapper_test/include/st_asio_wrapper_unpacker.h:249-283 | two bytes are enough for that |
| FixedLengthUnpacking.FixedLengthUnpacker.CompletionCondition | asio_wrapper_test/include/st_asio_wrapper_unpacker.h:348-358 | stops exactly on an error or a whole message |
| FixedLengthUnpacking.FixedLengthUnpacker.ParseMsg | asio_wrapper_test/include/st_asio_wrapper_unpacker.h:321-342 | delivers what the buffer decodes to; the remainder moves to the front and the buffer wants more |
| FixedLengthUnpacking.Room | asio_wrapper_test/include/st_asio_wrapper_unpacker.h:348-364 | there is always room for a chunk, and a fresh read asks for more |
| FixedLengthUnpacking.Receive | asio_wrapper_test/include/st_asio_wrapper_unpacker.h:311-364 | any stream, any chunk sizes: the messages of the decoder, no failure |
| FixedLengthUnpacking.FixedRoundTrip | asio_wrapper_test/include/st_asio_wrapper_unpacker.h:321-342 | messages of the right length, concatenated, come back |
| StSocket.SpliceHelper | asio_wrapper_test/include/st_asio_wrapper_base.h:159-181 | moves as many as fit, loses and reorders nothing, never exceeds the limit, and leaves something only if the target is full |
| StSocket.SendHalf.DoSendMsg | asio_wrapper_test/include/st_asio_wrapper_tcp_socket.h:115-133 | takes the machine's sending step; the result says whether it is sending |
| StSocket.SendHalf.SendMsg | asio_wrapper_test/include/st_asio_wrapper_socket.h:90-94 | keeps the sending invariants, and one write at a time unless it is the step that starts a second |
| StSocket.SendHalf.DirectSendMsg | asio_wrapper_test/include/st_asio_wrapper_socket.h:124-128 | accepts if there is room or the caller waives the limit; an accepted non-empty message, and nothing else, enters behind all that waits; keeps the invariants, one write at a time included unless this is the step that starts a second |
| StSocket.SendHalf.DoDirectPostMsg | asio_wrapper_test/include/st_asio_wrapper_socket.h:355-369 | appends every non-empty message, posting or not, arms timer 2 unless posting is under way, and keeps the invariants and the order |
| StSocket.SendHalf.DirectPostMsg | asio_wrapper_test/include/st_asio_wrapper_socket.h:131-138 | a non-empty message enters the send buffer if that accepts it and the post buffer otherwise; never refuses; keeps the invariants |
| StSocket.SendHalf.SuspendSendMsg | asio_wrapper_test/include/st_asio_wrapper_socket.h:96 | lifting the suspension tries to send; keeps the invariants, so nothing waiting is forgotten |
| StSocket.SendHalf.OnTimer2 | asio_wrapper_test/include/st_asio_wrapper_socket.h:210-227 | takes the machine's step, goes on exactly while messages are left to post, and keeps the invariants |
| StSocket.SendHalf.SendHandler | asio_wrapper_test/include/st_asio_wrapper_tcp_socket.h:199-229 | exactly the completed write is finished; after a failed one nothing is sent; keeps the invariants, and one write at a time unconditionally |
| StSocket.RecvHalf.DoDispatchMsg | asio_wrapper_test/include/st_asio_wrapper_socket.h:297-339 | while suspended only timer 1 may be armed, while posting nothing happens, and otherwise the first message, if any and none is being dispatched, goes to the user |
| StSocket.RecvHalf.DispatchMsg | asio_wrapper_test/include/st_asio_wrapper_socket.h:264-275 | with the forced buffer: splices, dispatches, reads on or arms timer 0; keeps exactly-once, order, bounds and wake-ups |
| StSocket.RecvHalf.OfferMsgs | asio_wrapper_test/include/st_asio_wrapper_socket.h:244-275 | without it: the loop equals the machine's turns, with answers and surroundings that may change from turn to turn; keeps exactly-once, bounds and wake-ups, also when posting starts meanwhile |
| StSocket.RecvHalf.OfferMsg | asio_wrapper_test/include/st_asio_wrapper_socket.h:247-259 | one turn: taken and then handled, moved to the buffer, or left because the buffer is full |
| StSocket.RecvHalf.MsgHandler | asio_wrapper_test/include/st_asio_wrapper_socket.h:278-294 | an accepted message counts as handled, once; a declined one goes back to the front with timer 3 armed; keeps the receiving invariants |
| StSocket.RecvHalf.SuspendDispatchMsg | asio_wrapper_test/include/st_asio_wrapper_socket.h:99-104 | sets the switch; suspending gives nothing to the user and leaves timer 1 armed exactly if something waits; keeps the receiving invariants |
| StSocket.RecvHalf.RecvHandler | asio_wrapper_test/include/st_asio_wrapper_tcp_socket.h:177-197 | in either configuration: queues and dispatches what was parsed, also in front of malformed bytes; which callback the user gets; an error or an empty read ends the chain; keeps the receiving invariants |
| SendInvariants.TxStepKeeps | asio_wrapper_test/include/st_asio_wrapper_socket.h:124-138 | every step keeps: messages conserved, posted ones in order, non-empty post buffer iff posting with timer 2 live, bounded send buffer, no forgotten message |
| SendInvariants.SendingAlways | asio_wrapper_test/include/st_asio_wrapper_socket.h:342-369 | the same in every state of every run |
| SendInvariants.CallsEnter | asio_wrapper_test/include/st_asio_wrapper_socket.h:124-138 | over every run: what entered the send buffer directly are the messages of the accepted calls to send, what came through the post buffer and what is still in it are the messages of all calls to post, each in order |
| SendInvariants.OutcomeStep | asio_wrapper_test/include/st_asio_wrapper_tcp_socket.h:199-229 | a write is finished by its completion and by nothing else, a failed one is not followed by another, and the switches say what was last asked for |
| SendInvariants.NothingStarts | asio_wrapper_test/include/st_asio_wrapper_tcp_socket.h:117-135 | a socket that is closing, or suspended and not resumed, starts no write, whatever the steps |
| SendInvariants.OneWriteStep | asio_wrapper_test/include/st_asio_wrapper_tcp_socket.h:115-229 | every step that does not start a second write keeps: at most one write, its bytes intact, and finished, in flight, waiting is the entered sequence |
| SendInvariants.OneWriteAlways | asio_wrapper_test/include/st_asio_wrapper_tcp_socket.h:115-229 | the same in every run of such steps |
| SendInvariants.OneWriteExactly | asio_wrapper_test/include/st_asio_wrapper_tcp_socket.h:115-133 | over every run: at most one write and the order hold all along if and only if no step sends with sending allowed, `sending` clear, a write outstanding and a message waiting |
| SendInvariants.OneWriteForCallers | asio_wrapper_test/include/st_asio_wrapper_tcp_socket.h:115-133 | the same in terms of the calls: if and only if no allowed attempt with a message waiting follows, before a write completes, an attempt that came while sending was disallowed and a write outstanding |
| SendInvariants.SecondWrite | asio_wrapper_test/include/st_asio_wrapper_tcp_socket.h:115-133 | suspending, trying and resuming starts a second write beside the first and overwrites the bytes of the first |
| SendInvariants.SecondWriteHappens | asio_wrapper_test/include/st_asio_wrapper_tcp_socket.h:115-133 | a run from the start that does it |
| ReceiveInvariants.RxStepKeeps | asio_wrapper_test/include/st_asio_wrapper_socket.h:242-339 | every step, with reads of any number of messages, keeps: exactly once, in order with the forced buffer, at most MAX_MSG_NUM + 1 messages buffered or in hand, no read while messages wait, no lost wake-up |
| ReceiveInvariants.WaitingBound | asio_wrapper_test/include/st_asio_wrapper_socket.h:272-275 | no more messages wait outside the receive buffer than one read has yielded |
| ReceiveInvariants.DoDispatchShape | asio_wrapper_test/include/st_asio_wrapper_socket.h:297-324 | an attempt to dispatch moves at most one message, and afterwards whatever waits is watched |
| ReceiveInvariants.HandledKeeps | asio_wrapper_test/include/st_asio_wrapper_socket.h:278-294 | the message handler keeps the invariants, whatever the answer |
| ReceiveInvariants.AnswerStep | asio_wrapper_test/include/st_asio_wrapper_socket.h:247-290 | a message counts as handled when the user takes it and only then, as parsed when a read yields it |
| ReceiveInvariants.DeclinedStep | asio_wrapper_test/include/st_asio_wrapper_socket.h:283-288 | a declined message goes back to the front of the buffer and timer 3 is armed |
| ReceiveInvariants.QuietStep | asio_wrapper_test/include/st_asio_wrapper_socket.h:302-307 | while dispatching is suspended or posting is under way no step gives a message to the user |
| ReceiveInvariants.OvertakingWithoutForcedBuffer | asio_wrapper_test/include/st_asio_wrapper_socket.h:244-262 | three steps after which the second of any two different messages has been handled and the first has not |
| ReceiveInvariants.OrderWithoutForcedBuffer | asio_wrapper_test/include/st_asio_wrapper_socket.h:246-248 | taking a message at once keeps the order if and only if all messages ahead of it equal it |
| ReceiveInvariants.LinkDownDrains | asio_wrapper_test/include/st_asio_wrapper_socket.h:307-337 | with the link down or the service stopped, and the forced buffer, the next attempt hands over all that is left, once and in order; with a message being dispatched, a closed socket does nothing and a stopped service loses exactly that message |
| ReceiveInvariants.PostingEnds | asio_wrapper_test/include/st_asio_wrapper_socket.h:219-224 | the end of posting leaves nothing unwatched |
| SocketRuns.StepKeeps | asio_wrapper_test/include/st_asio_wrapper_socket.h:200-240 | both halves together, with posting holding up dispatching and waking it again |
| SocketRuns.SocketAlways | asio_wrapper_test/include/st_asio_wrapper_socket.h:99-369 | all of the above in every interleaving |
| SocketRuns.AnswersCount | asio_wrapper_test/include/st_asio_wrapper_socket.h:242-294 | over every run: what is handled are the messages the user took, one for each time; with the forced buffer a prefix of what the reads yielded, without it a part of it |
| SocketRuns.SuspendedStays | asio_wrapper_test/include/st_asio_wrapper_socket.h:302-306 | from a suspended state with nothing being dispatched, no list of steps without resuming gives a message to the user |
| SocketRuns.PostingFirst | asio_wrapper_test/include/st_asio_wrapper_socket.h:307 | nor does one without timer 2 from a state that is posting |
| SocketRuns.WaitingAlways | asio_wrapper_test/include/st_asio_wrapper_socket.h:242-275 | the bound in every run, for every limit on the messages of a read |
| SocketRuns.IdleMeansDone | asio_wrapper_test/include/st_asio_wrapper_socket.h:297-339 | a socket with nothing pending has handled everything parsed, posted everything and sent everything it may send |
| Link.LinkStepKeeps | asio_wrapper_test/include/st_asio_wrapper_tcp_socket.h:115-229 | bytes received and on the wire are exactly the bytes taken from the sender, the receiver's account of them is the decoder's, and at most MSG_BUFFER_SIZE / (HEAD_LEN + 1) messages wait outside its buffer |
| Link.LinkAlways | asio_wrapper_test/include/st_asio_wrapper_tcp_socket.h:115-229 | the same in every run |
| Link.EndToEnd | asio_wrapper_test/include/st_asio_wrapper_tcp_socket.h:115-229 | in every state of every run and for every chunking, the messages handled are a prefix of the bodies of the messages that entered the send buffer |
| Link.EverythingDelivered | asio_wrapper_test/include/st_asio_wrapper_socket.h:200-339 | when both sides are idle and the wire is empty, everything that entered has been handled, in order |
| Progress.HelpfulEnabled | asio_wrapper_test/include/st_asio_wrapper_socket.h:200-339 | as long as something is left to do, an event is pending that brings the link closer to its end |
| Progress.EventAdvances | asio_wrapper_test/include/st_asio_wrapper_socket.h:200-339 | every pending event lessens what is left to do, or leaves it and the event that is waited for as they are |
| Progress.FairRunsDeliver | asio_wrapper_test/include/st_asio_wrapper_socket.h:200-339 | from every reachable state in which both ends may send and the receiver dispatches and reads, every fair run of pending events comes to a state where the messages of all calls to post and of all accepted calls to send, each in order, and nothing else, have been handled |
| Progress.FairRunExists | asio_wrapper_test/include/st_asio_wrapper_socket.h:200-339 | there are fair runs from every state |
| Progress.EverythingCanBeDelivered | asio_wrapper_test/include/st_asio_wrapper_socket.h:200-339 | so a list of pending events alone delivers them |
| Progress.HeldUpStays | asio_wrapper_test/include/st_asio_wrapper_socket.h:302-307 | a closing socket with something to post, a full send buffer and no write outstanding dispatches nothing in any step, application calls and incoming bytes included |
| Progress.HeldUpForever | asio_wrapper_test/include/st_asio_wrapper_socket.h:302-307 | the same for all continuations of a run |
| Progress.HeldUpArises | asio_wrapper_test/include/st_asio_wrapper_socket.h:219-224 | closing gracefully while posting leads there |
| Progress.HeldUpHappens | asio_wrapper_test/include/st_asio_wrapper_socket.h:124-138 | a run from the start that gets there |
| ObjectPool.FreedCut | asio_wrapper_test/include/st_asio_wrapper_object_pool.h:299-314 | freeing a number removes exactly the first so many eligible entries and keeps everything behind the cut |
| ObjectPool.FreedAll | asio_wrapper_test/include/st_asio_wrapper_object_pool.h:299-314 | freeing without a limit removes exactly the eligible entries |
| ObjectPool.FreedOnly | asio_wrapper_test/include/st_asio_wrapper_object_pool.h:88-88 | nothing goes that was closed less than five seconds ago or is still needed, no more than the number, and if fewer, all that may |
| ObjectPool.FirstEligible | asio_wrapper_test/include/st_asio_wrapper_object_pool.h:138-139 | the first eligible entry of the whole list, and none if there is none |
| ObjectPool.NothingLeft | asio_wrapper_test/include/st_asio_wrapper_object_pool.h:305-306 | where the early exit stops, a full scan would remove nothing more |
| ObjectPool.NoneLater | asio_wrapper_test/include/st_asio_wrapper_object_pool.h:137-138 | in a list sorted by time nothing behind an entry that has not timed out is eligible |
| ObjectPool.StObjectPool.AddObject | asio_wrapper_test/include/st_asio_wrapper_object_pool.h:106-112 | inserted if and only if there is room and the id is new |
| ObjectPool.StObjectPool.DelObject | asio_wrapper_test/include/st_asio_wrapper_object_pool.h:116-131 | an object that was live becomes the last closed one; the order by time is kept |
| ObjectPool.StObjectPool.FreeObject | asio_wrapper_test/include/st_asio_wrapper_object_pool.h:299-314 | stopping early equals the full scan, for every number; nothing closed less than five seconds ago is freed |
| ObjectPool.StObjectPool.ReuseObject | asio_wrapper_test/include/st_asio_wrapper_object_pool.h:133-151 | the longest closed object among those closed at least five seconds ago and not needed is taken; none is found if and only if there is none |
| ObjectPool.PoolStepKeeps | asio_wrapper_test/include/st_asio_wrapper_object_pool.h:106-201 | every lock region keeps: no object in two places or listed twice, distinct ids below the next id, bounded live set, closed list sorted by time |
| ObjectPool.NothingVanishes | asio_wrapper_test/include/st_asio_wrapper_object_pool.h:106-314 | no object gets lost on its way: it stays live, closed, in motion or with a caller until its last holder drops it or it is freed in time |
| ObjectPool.Moves | asio_wrapper_test/include/st_asio_wrapper_object_pool.h:106-131 | where each object goes: to the live set if and only if there is room, out of it, to the end of the closed list with the time of day; and a new name was never used |
| ObjectPool.PoolAlways | asio_wrapper_test/include/st_asio_wrapper_object_pool.h:106-314 | the same in every interleaving |
| Icmp.TwoStepsSuffice | bind_function/icmp_header.hpp:89-90 | two folding steps equal full one's-complement folding, for every 32-bit sum |
| Icmp.FoldModulo | bind_function/icmp_header.hpp:89-90 | folding keeps the residue modulo 0xFFFF and yields zero only for zero |
| Icmp.IcmpHeader.Encode | bind_function/icmp_header.hpp:65-69 | decodes back to the same number and changes no other byte |
| Icmp.IcmpHeader.NetworkOrder | bind_function/icmp_header.hpp:62-69 | the first byte of a number is its high byte |
| Icmp.IcmpHeader.Sum | bind_function/icmp_header.hpp:78-87 | the sum of all words modulo 2^32, for odd lengths too |
| Icmp.IcmpHeader.ComputeChecksum | bind_function/icmp_header.hpp:75-92 | stores the complement of the fully folded 32-bit sum; the packet verifies if and only if the number of lost carries is a multiple of 0xFFFF, so for every body up to 131068 bytes; only the checksum field changes |
| Icmp.ShortTotal | bind_function/icmp_header.hpp:78-87 | up to 131068 bytes the 32-bit sum never overflows |
| Icmp.ExactlyShortBodies | bind_function/icmp_header.hpp:75-92 | a length is safe for all packets if and only if it is at most 131068 |
| ConnMsg.AllocAlways | asio_test/connection.cpp:85-124 | after any series of bodies the last one fits, an allocated size exceeds 256, and the capacity is 256 if and only if no body ever exceeded it |
| ConnMsg.AllocExactly | asio_test/connection.cpp:85-124 | the allocated size is that of the longest body so far, if that exceeded 256 |
| ConnMsg.Message.BodyLength | asio_test/connection.cpp:85-124 | the buffer holds the wanted length, and is zeroed unless an allocated buffer is reused |
| ConnMsg.Message.SetBody | asio_test/connection.cpp:126-143 | the body is the data given |
| EchoSession.ReleaseKeepsPool | asio_test/connection.cpp:637-646 | a release never overwrites a pooled buffer |
| EchoSession.OneCheckIsNotEnough | asio_test/connection.cpp:625-646 | without the second check a full pool would lose its oldest buffer |
| EchoSession.StepKeeps | asio_test/connection.cpp:232-656 | every lock region, of the session, of a broadcast or of others, keeps: no buffer in two places, only inline buffers pooled, bodies unchanged while queued, every message received enters the queue once and in order |
| EchoSession.StepInOrder | asio_test/connection.cpp:232-440 | and unless it pushes a message across a call on its way to `do_write`: at most one outstanding write, of the front message, one activity exactly while messages wait, heads and bodies alternate in order |
| EchoSession.EchoAlways | asio_test/connection.cpp:232-656 | the former in every interleaving |
| EchoSession.InOrderAlways | asio_test/connection.cpp:232-440 | the latter in every run without such a push: what was written is a head and a body for every message that left the queue, in order, plus the started part of the front one |
| EchoSession.OneWriteExactly | asio_test/connection.cpp:232-260 | at most one write, however soon or late the calls on their way to `do_write` get there, if and only if no message is pushed across one of them |
| EchoSession.CrossingDoubles | asio_test/connection.cpp:411-428 | otherwise the same head can be written twice, side by side |
| EchoSession.CrossingHappens | asio_test/connection.cpp:411-428 | a run from the start, with two broadcasts, that gets there |
| EchoSession.SerialEcho | asio_test/connection.cpp:294-440 | if one thread runs the handlers to their ends and nobody broadcasts: no such push; between handlers exactly one write is outstanding if messages wait and none otherwise; written in full followed by waiting are the bodies the client sent, unchanged and in order; heads and bodies alternate on the wire |
| EchoSession.SerialEchoEnds | asio_test/connection.cpp:294-440 | when then nothing is outstanding, the client has got back a head and a body for each body it sent |
| EchoSession.QuietMeansEchoed | asio_test/connection.cpp:328-440 | without such a push, when nothing is under way, what has been written are all messages that entered, and without broadcasts all that was read, unchanged |
| EchoSession.HistoryStep | asio_test/connection.cpp:442-454 | a body counts as received when it is read, all of it; the log grows by what a completed write has written |
| EchoSession.ReadInFull | asio_test/connection.cpp:126-143 | what was read is copied in full to the buffer that the session then holds |
| ConnectionServer.ConnectionMgr.AllocateMsgBuffer | asio_test/connection.cpp:566-611 | a small message takes the oldest pooled buffer unless a check found none; any other gets a new one |
| ConnectionServer.ConnectionMgr.DellocateCommit | asio_test/connection.cpp:637-646 | pooled last, or destroyed when the pool has filled up meanwhile |
| ConnectionServer.SessionTcp.HandlerReadBody | asio_test/connection.cpp:442-454 | copies the whole message to a buffer that nobody else has; keeps the invariants |
| ConnectionServer.SessionTcp.Write | asio_test/connection.cpp:232-252 | appends, and tells to start exactly if the queue was empty; keeps the invariants, and the order of the writes unless a start is on its way already |
| ConnectionServer.SessionTcp.DoWrite | asio_test/connection.cpp:328-350 | starts the head of the front message, if there is one; keeps the invariants and the order of the writes |
| ConnectionServer.SessionTcp.HandlerWriteHeader | asio_test/connection.cpp:352-389 | the head has been written; the body of the front message follows, which is the same message as long as the writes are in order; keeps the invariants |
| ConnectionServer.SessionTcp.HandlerWriteBody | asio_test/connection.cpp:391-414 | takes the machine's step to the first check of the release, or without room to the end of the lock region; keeps the invariants |
| ConnectionServer.SessionTcp.FinishRelease | asio_test/connection.cpp:407-414 | takes the machine's step for the second check and the pop; `do_write` is a region of its own; keeps the invariants |

## Left out

- EndToEnd: for senders without write errors in which no step starts a second write; OneWriteExactly says when that is, and SecondWrite shows that it is needed.
- EverythingDelivered: under the same conditions as EndToEnd.
- SerialEcho: every new message gets a handle that is not in use, as allocated memory is.
- AffixRoundTrip: for non-empty bodies that fit and whose first suffix in the framed body ends the frame; AffixFrameScans shows that no other non-empty body survives.
- OfferMsgs: a suspension that another thread sets during the loop is not seen by this method; the turns of the loop as separate steps, with everything else in between, are RxStepKeeps.
- ReadAfterFailure: on a service with one thread; with several, bytes may also land before the reset.
- DelObject: one call without interference; interleavings of its two lock regions are PoolAlways.
- FreeObject: one set of idle objects and one clock reading per call, where the source looks at each entry in turn.
- ReuseObject: the same.
- Boost.Asio itself, SSL, resolvers, acceptors and threads: sockets, timers and the executor are steps that may happen whenever they are enabled.
- `clean_up` and `reset_state` of a socket, runs across them, connectors and reconnection, the service pump: flags are cleared there while handlers are still pending, so the invariants of an epoch do not extend across.
- The graceful-close countdown, the timer class and `find_timer`: they only add easy members.
- UDP sockets and the `replaceable_*` classes: the same shape as the TCP and default versions.
- `HUGE_MSG`, and the memory ownership inside `inflexible_buffer`.
- `pop_*`, `peek_*` and count functions for pending messages, `safe_send_msg`, the broadcasts of the pool: direct uses of the queues or loops around the calls modelled here.
- `closed_object_pop` erases under a shared lock; the model takes it as one indivisible step.
- 64-bit wrap-around of object ids.
- Header fields of `conn_msg` other than the length, and read or write errors of the echo session.
- Logging, console formatting and the demonstration programs.
