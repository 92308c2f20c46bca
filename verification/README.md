# A verified model of a pure-Go Wayland client

This project models the client runtime in `client/` and the scanner in
`cmd/sysc-wayland-scanner/`, and proves what they are for. The wire rules are those of the
Wayland documentation (core 1.24), chapter 4 "Wayland Protocol and Model of Operation", section
"Wire Format". `dafny verify dfyconfig.toml` checks everything.

There are three layers.

**The connection.** `Connection` describes a `Context` as a value: object map, ID allocator,
sticky error, queue of received descriptors, the variable a `Roundtrip` waits for, and the two
directions of its socket as scripts of results that the calls will return, in arbitrary
fragments and with arbitrary faults. Every operation is a function from one such state to the
next; Go panics are results. A handler is described by what it does: create and destroy objects,
send requests, set the fatal error, close the connection, panic, and, for the function literal
of `Roundtrip` only, set that call's variable. `Client` holds the same thing as the program has
it, as a class with fields that methods update in place, loops included; each method is proved
to be the function of the same name, and `Client.Context.Session` says so for whole runs. So
what `Sessions`, `Descriptors`, `Framing`, `Deadlines`, `Events` and `Sync` prove about
connections and their runs holds of the class. `Allocator` and `Zombies` speak of the object map
alone; `Delivery` shows that dispatching a message is delivering it to the map, and lifts their
results to whole sessions.

**The object protocol.** `ObjectProtocol` is a transition system of two parties, the client and
an ordered server, with one FIFO queue each way. Every object gets an incarnation number that is
not on the wire, which makes it possible to say that a message reaches the objects it was sent
from and about, and not later ones with the same IDs. The server's assumptions are the documented ones: it
sends from and about objects it has, acknowledges a client ID with `delete_id` after its last
event about it, and reuses one of its own IDs only after it handled the client's destroy.
`Bridge` ties it to bytes: an event that the protocol can deliver, encoded as the sender's type
demands, is delivered by the connection, and both have the same objects afterwards. `Joint` runs
a connection and a server together: the application's calls beside the client's steps, requests
as the frames that were written, events as bytes that arrive in any fragments. Every such run is
a run of the object protocol, and no dispatch in it fails. `RoundtripBarrier` concludes that a
`Roundtrip` that returns nil is a barrier.

**The scanner.** `Encoder` and `Decoder` compile an argument list to what the scanner emits: the
length variables and the size expression, the encoding walk, the decoding walk of `Dispatch` and
the zombie walk of `AbsorbNewIDs`. The emitted code is a small language with a semantics.
`Scanner` has the scanner's own loops over arguments and events, `Buffer` runs an emitted request
on an array. The theorems hold for every signature.

## Reading guide

| file | content |
|---|---|
| `Wire.dfy` | words, padding, C strings |
| `Registry.dfy`, `Allocator.dfy` | the object map, ID allocation, runs of the allocator |
| `Signature.dfy` | argument lists, interfaces, the wire format |
| `Encoder.dfy`, `Buffer.dfy` | compiled requests; the same filling a buffer in place |
| `Decoder.dfy`, `RoundTrip.dfy` | compiled event walks; decoding inverts encoding |
| `Zombies.dfy` | the zombie walk against the decoding walk |
| `Scanner.dfy` | the loops that emit the walks |
| `Socket.dfy` | reading and writing whole buffers over short reads and writes |
| `Connection.dfy`, `Invariants.dfy` | the connection as a value, and induction over its runs |
| `Sessions.dfy`, `Descriptors.dfy`, `Framing.dfy` | safety over whole sessions |
| `Deadlines.dfy`, `Events.dfy` | deadlines and broken sockets; decoded and broken events, errors, and who owns a descriptor |
| `Delivery.dfy`, `Closing.dfy` | dispatching is delivering; the allocator and zombie results for sessions; closing |
| `Sync.dfy` | `Roundtrip` |
| `Client.dfy` | the class `Context` with its methods |
| `ObjectProtocol.dfy`, `Barrier.dfy` | the two-party protocol; a sync as a barrier in it |
| `Bridge.dfy`, `Joint.dfy` | the protocol's messages as bytes; connection and server run together |
| `RoundtripBarrier.dfy` | `Roundtrip` as a barrier |
| `FixedPoint.dfy` | 24.8 fixed point and IEEE 754 |

## Where code and documentation disagree

`Dispatch` wraps a read error in `ErrDispatchUnableToReadMsg` (client/context.go:153), but
`ReadMsg` has made its own error sticky by then, and `setFatal` returns the first error. So the
documented sentinel never reaches a caller: `Sessions.ReadErrorsAreNotWrapped` for every state,
`Sessions.ClosedPeerIsUnexpectedEOF` for a peer that closed at once.

A string with a NUL inside does not survive the wire: what arrives is the part before it.
`RoundTrip.DecodingInvertsEncoding` says what arrives for all strings, and
`RoundTrip.NulFreeStringsSurvive` that it is the string itself exactly when there is no NUL.

## Model

| member | source | states |
|---|---|---|
| Wire.WordSurvivesBytes | client/request.go:76-79 | a word written by PutUint32 is the word Uint32 reads back |
| Wire.BytesSurviveWord | client/event.go:208-211 | four bytes read as a word are restored by writing that word: the two conversions are inverse both ways |
| Wire.PaddedLenAligned | client/util.go:19-24 | the padded length is a multiple of four; with PaddedLen's contract, the least one that is not smaller |
| Wire.CStringTerminated | client/event.go:213-220 | a terminated string, whatever follows it, holds the same C string as before |
| Registry.RegisterWithID | client/context.go:62-77 | a server object is registered exactly when its ID is in the server range and no live object holds it; otherwise the call panics |
| Registry.RegistrationLosesNoLive | client/context.go:66-77 | the new object is the one at its ID; every other object and every live one stays as it was, so what is replaced is a zombie |
| Registry.AllocateBalanced | client/context.go:33-60 | in a balanced state the top of the free stack is taken, else the counter grows by one, else the ID space is exhausted; the state stays balanced and the ID is a client ID |
| Registry.DeleteBalanced | client/context.go:83-91 | deleting any ID, known or not, the display or a server ID included, keeps the balance |
| Registry.DeletedIsNext | client/context.go:83-91 | the most recently recycled ID is reused: after an effective deletion Register returns the deleted ID, whatever was free before, and the allocator is back where it was |
| Registry.BalancedIgnoresServerIDs | client/context.go:62-77 | registrations in the server range cannot disturb the allocator |
| Allocator.EveryRunIsBalanced | client/context.go:33-91 | after every run of Register, RegisterWithID and DeleteID the free stack has no duplicates and no registered ID, and 1 to the counter splits into registered client IDs, free IDs and perhaps the deleted display ID |
| Allocator.CounterIsRegisteredPlusFree | client/context.go:33-91 | the counter is the number of registered client IDs plus the number of free ones |
| Allocator.CounterIsPeak | client/context.go:33-60 | in every run that never deletes ID 1 the counter equals the largest number of client IDs ever registered at once |
| Allocator.NextIsAcknowledgedOrOneAboveAll | client/context.go:33-60 | the ID Register returns was acknowledged by DeleteID before, or is exactly one above every ID returned earlier |
| Allocator.DeletedIsIssuedNext | client/context.go:33-91 | the same after every run of the three operations |
| Signature.WireBodyAligned | client/request.go:91-100 | every message body is a multiple of four bytes long |
| Encoder.RequestIsWireFormat | cmd/sysc-wayland-scanner/main.go:435-624 | for every signature and all arguments: the size expression equals the final cursor of the encoding walk and the frame length; no write leaves the buffer; the writes are consecutive slices from its first to its last byte; the bytes are the wire format; the only panic is a nil object where none is allowed |
| Encoder.SendableExactly | client/request.go:23-25 | WriteMsg accepts some bytes if and only if they are one message: of some sender, opcode and aligned body, with the length they declare |
| Encoder.GeneratedFrameSendable | client/request.go:19-30 | WriteMsg accepts a generated request exactly when it fits the 16-bit size |
| Buffer.PutString | client/request.go:91-95 | writes length, text and NUL into the slice in place and nothing outside, or panics exactly when they do not fit |
| Buffer.PutArray | client/request.go:97-100 | writes length and content into the slice in place and nothing outside |
| Buffer.Encode | cmd/sysc-wayland-scanner/main.go:495-624 | the emitted method, run statement by statement on an array, leaves the wire format of its arguments there and its cursor at the end |
| Decoder.DecoderWalks | cmd/sysc-wayland-scanner/main.go:841-945 | the compiled decoding walk equals the decoding of one argument after the other, for every signature and body |
| Decoder.AbsorberWalks | cmd/sysc-wayland-scanner/main.go:1018-1052 | the same for the zombie walk |
| RoundTrip.DecodingInvertsEncoding | cmd/sysc-wayland-scanner/main.go:495-624 | for every signature, the compiled decoding walk run on the bytes of the compiled encoding walk returns the arguments: objects as IDs, strings up to their NUL, null and empty strings apart, the descriptor beside the bytes; it ends at the last byte; and it panics exactly when some new_id can neither be registered nor names a live proxy of its type |
| RoundTrip.BindableExactly | cmd/sysc-wayland-scanner/main.go:847-870 | the receiver binds all new_id arguments of a message exactly when a condition on its objects before the message holds, and afterwards each is live under its ID |
| RoundTrip.NulFreeStringsSurvive | client/event.go:213-220 | a string arrives unchanged if and only if it has no NUL |
| Zombies.AbsorberFollowsDecoder | cmd/sysc-wayland-scanner/main.go:982-1057 | wherever Dispatch succeeds without meeting a live object at an ID it introduces, AbsorbNewIDs succeeds, reads every new_id at the same offset, ends at the same place and leaves the same IDs, all introduced ones as zombies |
| Zombies.DecoderIgnoresZombies | cmd/sysc-wayland-scanner/main.go:841-875 | a live proxy decodes an event to the same plain values when other objects have become zombies |
| Zombies.DestroyingIsHarmless | client/context.go:174-189 | take any run of messages and destructions that the object map survives, with IDs reused by the server, and destroy further proxies at any moments in between: it survives too, with the same IDs registered, at any depth of nested introductions |
| Scanner.WriteRequest | cmd/sysc-wayland-scanner/main.go:432-493 | the loop over the arguments yields exactly the compiled lengths, size expression, walk and descriptor, and its flag says whether the size is constant |
| Scanner.WriteWalk | cmd/sysc-wayland-scanner/main.go:495-624 | the second loop yields the compiled encoding walk and the last descriptor argument |
| Scanner.ConstantSizeIsConstant | cmd/sysc-wayland-scanner/main.go:436-493 | the buffer is declared with a constant size exactly when the size expression and the code mention no length variable |
| Scanner.WriteEventDispatcher | cmd/sysc-wayland-scanner/main.go:757-980 | the loop over the events yields exactly the compiled cases of HasFD, Dispatch and AbsorbNewIDs |
| Scanner.WriteDecoder | cmd/sysc-wayland-scanner/main.go:841-945 | the loop over an event's arguments yields its compiled decoding walk |
| Scanner.WriteAbsorber | cmd/sysc-wayland-scanner/main.go:1003-1056 | the loop over an event's arguments yields its compiled zombie walk |
| Scanner.CaseIsDispatchEvent | cmd/sysc-wayland-scanner/main.go:819-974 | running an emitted case, with its handler tests before or after the decoding and its special effects, is delivering the event |
| Scanner.EmittedMethods | cmd/sysc-wayland-scanner/main.go:767-794 | on every opcode the three emitted methods agree with the interface: HasFD is true for exactly the events with a descriptor, Dispatch has a case for exactly the events, AbsorbNewIDs acts on exactly the events that introduce objects |
| Socket.ReadExactLosesNothing | client/event.go:141-176 | whatever the calls report, what is read is a prefix of the stream; when reading succeeds the rest of the stream is left, and the descriptors queued are those that came with these bytes |
| Socket.ReadExactTakes | client/event.go:141-176 | on any fragmentation, reading takes exactly the next bytes of the stream and the descriptors that come with them, and fails only when the stream ends first |
| Socket.FDsWithinSplit | client/event.go:76-94 | reading header and body in two goes queues the descriptors that reading both at once would |
| Socket.WriteFrameResult | client/request.go:35-74 | at most one plain write per byte left by the first call; each call resumes where the last stopped; ancillary data is passed once, first; success means the whole frame was taken, failure a prefix, and the error says so if anything was taken |
| Socket.WriteFrameStops | client/request.go:35-74 | writing stops at the first call in trouble and at no other, and reports that trouble; with valid counts in the first call the error says that the frame was cut if and only if the socket took a byte or ancillary data, and otherwise it always says so |
| Invariants.RunsKeep | client/context.go:140-202 | an induction principle: what the small operations keep, every run keeps, through decoders, absorbers, handlers and panics |
| Invariants.CompiledKeepsClientIDs | cmd/sysc-wayland-scanner/main.go:855-870 | decoding or absorbing any message, even one that panics half way, changes no client ID in the map |
| Sessions.EverySessionIsBalanced | client/context.go:33-91 | the allocator invariant holds after every session, whatever the peer sends and the handlers do |
| Sessions.DeletedIsRegisteredNext | client/context.go:33-91 | after every session, DeleteID of a registered client ID and then Register put the new object at this ID; allocator and other objects are as before |
| Sessions.ServerIDsAreRegistered | client/context.go:62-77 | a direct registration makes the proxy live exactly when the ID is a server ID without a live object, and touches nothing else |
| Sessions.FirstErrorSticks | client/context.go:208-215 | once a fatal error is set the queue is empty; in every continuation the error stays the first, every read, write and dispatch returns it, and no byte moves |
| Sessions.ReadErrorsAreNotWrapped | client/context.go:145-154 | a read error is returned as ReadMsg made it sticky, not wrapped by Dispatch |
| Sessions.OutgoingStreamIsWellFramed | client/request.go:19-30 | over every session the socket took the frames reported as written, whole and in order, then at most a prefix of the one frame it was handed after them, and that only after a failure; each is one message, so that a peer that cuts the bytes by the declared lengths gets exactly these frames back |
| Sessions.RefusedFrameChangesNothing | client/request.go:19-30 | bytes are refused with ErrFrameSize exactly when they are not one message, and then no byte is written and the connection is as before |
| Sessions.ClosedPeerIsUnexpectedEOF | client/context.go:145-154 | for instance, when the peer closed before anything was read, the error is the end of the stream and not the documented sentinel |
| Deadlines.IdleExactly | client/event.go:61-66 | ReadMsg reports an idle deadline exactly when its first call expires without a byte, and has then done nothing but queue what came with that call |
| Deadlines.IdleDeadlinesStutter | client/context.go:145-152 | any number of idle deadlines in front of some traffic is dispatched to nothing: the connection is left as without them, and ErrReadTimeout is returned |
| Deadlines.IdleDeadlinesAnywhere | client/context.go:145-152 | the same for any numbers of idle deadlines at any boundaries between messages of a session that does not fail, with any other calls in between |
| Deadlines.LateDeadlineIsFatal | client/event.go:61-94 | let a deadline expire after the first byte of a message and before its last one, in the header or in the body, in a call that brings bytes or none: it is the sticky error, with every descriptor received so far closed, if and only if that call does not complete the header |
| Deadlines.DeadlineUnseen | client/event.go:162-165 | a deadline that expires in the call which completes the header is not looked at: the message is read as if it had not expired |
| Deadlines.HeaderOutlivesDeadline | client/event.go:162-165 | such an input, and the message that is read from it |
| Deadlines.BrokenReadIsFatal | client/event.go:141-176 | whatever a call that brings no byte reports before a message is whole, in the header or in the body, bad control data, truncation, an overrun, a closed peer, a deadline or another error, is the sticky error, and every descriptor that arrived is closed; an idle deadline is the only exception |
| Events.DecodingStaysInside | cmd/sysc-wayland-scanner/main.go:841-945 | for every signature and body a decoding that succeeds has not moved past the end of the body |
| Events.FieldsAreArguments | cmd/sysc-wayland-scanner/main.go:841-945 | a decoded event has one field per argument, and its descriptor field is the one it was dispatched with |
| Events.FieldsAreBound | cmd/sysc-wayland-scanner/main.go:847-876 | whatever the message says, a typed proxy field is non-nil only where a live proxy of that type is registered, a new_id field is nil only for ID 0, and an object field only where there was no such proxy |
| Events.CorruptEventIsFatal | client/context.go:166-171 | an event that does not decode, for a live sender or a destroyed display, makes the panic the sticky error and closes its descriptor and the queued ones once each; apart from registrations nothing else changes, so no handler ran: nothing is written, handed over, noted or allocated |
| Events.CorruptAbsorptionIsFatal | client/context.go:174-187 | the same for an absorber that panics |
| Events.HandlerPanicIsFatal | client/context.go:166-171 | a panic of the handler that was called fails the connection too, with the panic as the error unless the handler set one before, and hands nothing over |
| Events.HandlerErrorSticks | client/context.go:195-200 | an error that the handler makes sticky is the one the dispatch returns, whatever the handler does afterwards |
| Events.BadSenderIsFatal | client/context.go:155-193 | an unknown sender and one whose type has no events are the sticky error, with their ID; descriptors are closed and nothing else happens |
| Events.UnawareSenderTakesAny | client/context.go:159-162 | a sender that cannot tell which of its events carry descriptors is dispatched with the next one in any case |
| Events.DisplayErrorIsSticky | client/context.go:226-232 | the bytes of wl_display.error, for every object, code and message, to a live or destroyed display and with any handler: Dispatch returns and makes sticky exactly that object, or 0 if it has no proxy, that code and that message, and what the handler sends is refused |
| Events.StringDecodesExactly | cmd/sysc-wayland-scanner/main.go:913-932 | a string is decoded if and only if its length and padding are inside the body and it is terminated within its length, or is an allowed null; the text is what stands before the first NUL |
| Events.ArrayDecodesExactly | cmd/sysc-wayland-scanner/main.go:934-945 | the same for arrays |
| Events.AbsorbsExactly | cmd/sysc-wayland-scanner/main.go:1018-1052 | under a zombie strings and arrays are skipped if and only if their length is inside the body, whatever their padding and terminator |
| Events.OwnerOfDescriptor | client/context.go:172-200 | the descriptor of an event goes to the handler that was called and returned, even if that handler set the fatal error; in every other case, zombies, missing handlers and all panics included, the library closes it |
| Descriptors.EveryDescriptorAccounted | client/context.go:140-224 | after every session the multiset of descriptors received is that of the queued, the handed over and the closed ones |
| Descriptors.NoDoubleClose | client/context.go:104-108 | a descriptor received once is in exactly one of these places, once: none is closed twice, and none that is queued or handed over is closed |
| Framing.ReadMsgRefinesSplit | client/event.go:51-97 | on any fragmentation ReadMsg returns the message a simple splitter finds in the byte stream and leaves exactly the rest; it fails exactly where the splitter finds none |
| Framing.SplitFindsFrame | client/event.go:68-82 | the splitter finds every valid message in front of anything |
| Framing.SplitLosesNothing | client/event.go:68-82 | what the splitter finds is a valid message that encodes to the very bytes it was found in |
| Framing.InvalidHeaderIsFatal | client/event.go:68-82 | a header with sender 0, a length below 8 or an unaligned length is fatal with that error, in this order, and nothing is read beyond it |
| Framing.FragmentationIsInvisible | client/event.go:51-97 | a stream of valid messages, however cut, comes out as these messages in order, and no byte of what follows is consumed |
| Framing.DescriptorsStayAligned | client/context.go:159-162 | if each descriptor arrives no later than the last byte of its message, consecutive dispatches work on the messages sent, each with its own descriptor and the others with none, over zombies and coalescing |
| Delivery.FrameIsDelivery | client/context.go:155-201 | dispatching a message, with a handler that only looks, is delivering it to the object map: the connection survives in the same cases, with the same objects |
| Delivery.DeedsAreCalls | client/context.go:190-200 | a dispatch whose handler creates, destroys, sends, fails or closes comes to the state of a dispatch with a handler that only looks followed by these calls, or without them if the message does not call its handler |
| Delivery.DeedsAreActions | client/context.go:190-200 | what a handler does is what the same calls of the library do, and it panics exactly where Register has no ID left |
| Delivery.AcknowledgedIsNext | client/client.go:244-254 | after a dispatch that delivers a delete_id for a registered client ID, the next object gets this ID |
| Closing.CloseEmptiesTheQueue | client/context.go:104-108 | over every session, Close closes the queued descriptors once and in order, so that every descriptor received is the application's or closed; no later call reads or writes anything |
| Closing.HandlerCloses | client/context.go:104-108 | the same when a handler closes the connection in a dispatch, whatever it does afterwards |
| Delivery.SessionsSurviveDestruction | client/context.go:174-189 | take any session that does not fail, with handlers that only look, and let the application destroy further proxies at any moments: it does not fail either, and comes to the same state up to zombies and to who got the descriptors |
| Delivery.SessionCounterIsPeak | client/context.go:33-91 | over whole sessions, with whatever handlers create and the peer acknowledges: while the display was not deleted the counter is the largest number of client IDs registered at once at any registry call and a bound at every moment, and the next ID is an acknowledged one or one above all issued |
| Sync.DispatchConsumes | client/display.go:29-34 | a dispatch without an error takes bytes from the socket, so the loop of Roundtrip ends |
| Sync.NoteExactly | client/context.go:155-201 | delivering a message sets the variable of Roundtrip if and only if its function literal is the handler and is called; no other handler, decoder, absorber or recovery does |
| Sync.DoneExactly | client/display.go:24-27 | for every table of application handlers, a dispatch sets the variable if and only if it delivers a done event that decodes to the live callback that is still registered |
| Sync.AnswerCallsHandler | client/client.go:495-507 | the dispatch of a done event to the live callback sets the variable and does nothing else; if the body is too short it sets nothing and is fatal |
| Sync.AwaitEndsWithDone | client/display.go:29-34 | the loop on the variable returns nil only at the end of a run of dispatches without an error, in which the callback stays the one registered, and whose last one delivered its done event |
| Sync.RoundtripMeansDone | client/display.go:12-37 | nil means that the sync request was written whole with a new callback ID, that such a run followed, and that the callback was destroyed at its end |
| Sync.RoundtripDestroys | client/display.go:17-21 | whether Roundtrip returns nil or an error, if the request was written it returns what its last dispatch returned, and the callback is a destroyed object at its ID unless its delete_id was delivered; it stays one through any later dispatches, and a done event that still arrives is absorbed, whatever handler is set |
| Sync.LateAnswerIsAbsorbed | client/context.go:174-189 | a message for a destroyed callback sets nothing, calls no handler and returns nil |
| Sync.SyncRequestBytes | client/client.go:74-87 | the sync request is the display's ID, opcode 0 with length 12, and the callback's ID, as the compiled request writes them |
| Sync.AnswerEndsRoundtrip | client/display.go:12-37 | when the request is written, in whatever pieces, and the done event arrives behind any messages that are dispatched without an error, Roundtrip returns nil and leaves what follows unread |
| Client.Context.constructor | client/context.go:240-241 | a new context is the initial state of a connection |
| Client.Context.Register | client/context.go:33-60 | the two loops compute the allocation of the specification, register the proxy under that ID and nothing else; false is the panic |
| Client.Context.Recycled | client/context.go:38-46 | the loop over the free stack pops up to and including the first ID that is not registered |
| Client.Context.Counted | client/context.go:47-55 | the counting loop stops at the first ID that is not registered, or at the end of the client range |
| Client.Context.RegisterWithID | client/context.go:62-77 | registers exactly what the specification allows and changes nothing when it panics |
| Client.Context.DeleteID | client/context.go:83-91 | removes the object and recycles its ID as specified, so that it is the next one (Registry.DeletedIsNext) |
| Client.Context.SetFatal | client/context.go:208-215 | keeps the first error and closes the queue with it |
| Client.Context.TakeFD | client/event.go:114-125 | takes the oldest descriptor of the queue |
| Client.Context.PutBackFD | client/context.go:219-224 | puts a descriptor back in front of the queue |
| Client.Context.Close | client/context.go:104-108 | the new state of a closed connection, which Closing.CloseEmptiesTheQueue describes |
| Client.Context.ReadExactWith | client/event.go:141-176 | the loop fills the array in place with what the specification reads, reports how much, and queues the descriptors |
| Client.Context.ReadMsg | client/event.go:51-97 | the whole new state and result of reading one message |
| Client.Context.WriteFrame | client/request.go:35-74 | the first call and the loop after it do to the socket what the specification says |
| Client.Context.WriteMsg | client/request.go:19-30 | the whole new state and result of writing one message, which Encoder.SendableExactly and Socket.WriteFrameStops describe |
| Client.Context.Exec | cmd/sysc-wayland-scanner/main.go:847-888 | one statement of a walk, with its new proxies and zombie marks, does to the object map what the machine's step says |
| Client.Context.Walk | cmd/sysc-wayland-scanner/main.go:841-945 | a whole walk does what the compiled walk does, and registrations before a panic stay |
| Client.Context.AbsorbNewIDs | cmd/sysc-wayland-scanner/main.go:1003-1056 | the emitted AbsorbNewIDs on the object map |
| Client.Context.DispatchEvent | cmd/sysc-wayland-scanner/main.go:819-974 | one case of an emitted Dispatch; the client's proxies stay registered except the one a delete_id names, which is gone for good |
| Client.Context.Deliver | client/context.go:155-201 | routing, the zombie rule, the missing methods, the case of the opcode and the recovery from panics |
| Client.Context.Dispatch | client/context.go:140-202 | the whole new state and result of a dispatch |
| Client.Context.RunHandler | client/display.go:24-27 | running a handler does what it is described to do, and sets the field that stands for the variable of Roundtrip when it is that function literal |
| Client.Context.AwaitDone | client/display.go:29-34 | the loop on the variable, which only the handler of its callback sets, is the specified waiting, and knows whether the callback is still registered |
| Client.Context.Roundtrip | client/display.go:12-37 | the whole call; its callback is destroyed if and only if the request was written, whatever the dispatches returned, and it is the proxy registered at its ID unless that was deleted |
| Client.Context.Session | client/context.go:18-30 | any sequence of calls takes the object through the run of the specification |
| Client.Proxy.MarkZombie | client/common.go:66-68 | marks a proxy as destroyed |
| ObjectProtocol.EveryRunConsistent | client/context.go:33-91 | in every interleaving the two sides agree up to what is in flight, and no side fails |
| ObjectProtocol.EventsReachTheirObjects | client/context.go:140-202 | in every interleaving the next event finds, at its sender's ID and at those of its objects, the incarnation it was sent from and about, live or zombie; what it introduces becomes that incarnation; a delete_id acknowledges the incarnation registered |
| ObjectProtocol.RequestsReachTheirObjects | client/context.go:33-60 | in every interleaving the next request, whether it creates an object, uses objects or destroys one, finds at its sender's ID and at those of its arguments the incarnations the client named; a new client ID is unused on the server |
| ObjectProtocol.QuietSidesAgree | client/context.go:33-91 | when nothing is in flight both sides have the same objects: the client IDs in use are the server's, so that every destroyed one was acknowledged, and what the client keeps besides is destroyed |
| ObjectProtocol.IntroduceIsRegistration | client/context.go:62-77 | the client's side of an event is RegisterWithID for each introduction in turn |
| ObjectProtocol.DeleteIsDeleteID | client/context.go:83-91 | the client's side of a delete_id is DeleteID |
| ObjectProtocol.ReuseHappens | client/context.go:66-73 | there are runs in which the server reuses an ID while the client still keeps the old object as a zombie, and the new object replaces it |
| Barrier.EveryHistory | client/display.go:12-37 | over every run, the log of messages agrees with the queues, and the server sends from a client's object only after it handled the request that created it |
| Barrier.SyncIsABarrier | client/display.go:12-37 | when an event of the object that a request created was dispatched, the server had handled every request up to that one, and everything it sent before that was dispatched earlier |
| Barrier.NextEventIsABarrier | client/display.go:12-37 | the same by IDs alone: an event from an ID at which the object is still registered |
| Barrier.RoundtripIsABarrier | client/display.go:12-37 | after any run, let the client issue a sync, let anything happen on both sides except a delete_id for the callback, and let an event from its ID be dispatched: the server had handled the sync and all earlier requests when it sent it, and all it had sent before was dispatched earlier |
| Bridge.EventIsDelivery | client/context.go:155-201 | an event of the object protocol is delivered as the message is: sender looked up, tested for being a zombie, decoded or absorbed, with the same IDs registered and the same of them zombies |
| Bridge.DeleteIsDelivery | client/client.go:244-254 | a delete_id of the protocol is delivered as the event of wl_display is |
| Bridge.EncodedIsDelivered | client/context.go:155-201 | an event that the object protocol can deliver, as the bytes of an event of the sender's type whose new_ids are its introductions, is delivered, to a live sender and to a zombie, with and without handler, whatever the descriptor: no unknown sender, no duplicate ID, no truncated body; both sides have the same objects afterwards, of the types of the new_ids |
| Bridge.EncodedIsReceived | client/context.go:140-202 | the same for events and delete_id together: the invariant between the object map and the proxies of the protocol, zombies and types included, is kept |
| Bridge.ReferenceReaches | cmd/sysc-wayland-scanner/main.go:847-876 | an object argument of such an event names the incarnation the server meant, and a live sender's handler gets that object if it is of the declared type and the client has not destroyed it |
| Joint.EveryWorldIsSound | client/context.go:18-30 | over every run of a connection with an ordered server: the connection is alive, its object map, types and allocator are those of the protocol's client, its unread bytes are the server's events in flight, and the frames it has written are the requests of the run |
| Joint.PlayIsRun | client/context.go:18-30 | every such run is a run of the object protocol with the same requests |
| Joint.NoDispatchFails | client/context.go:140-202 | in every such run, with creations, uses and destructions, reused IDs, and bytes in any fragments, a dispatch with a whole message to read returns nil: never SenderNotFound, never DispatchPanic; the objects are then those of the protocol after its event |
| Joint.QuietConnectionAgrees | client/context.go:33-91 | when nothing is in flight, the object map of the connection has the objects of the server, with their types, and besides them only zombies at server IDs |
| RoundtripBarrier.NilIsABarrier | client/display.go:12-37 | when the frames written are the requests of a run and Roundtrip returns nil, it has written the sync behind them and has made successful dispatches up to the done event; if their messages are those of the run, the server had handled the sync and every earlier request when it sent the done event, and all it had sent before that was dispatched before the return |
| RoundtripBarrier.LockstepHappens | client/display.go:12-37 | such a run exists: the first sync of a connection and the server's answer |
| RoundtripBarrier.TurnsAreInLockstep | client/display.go:29-34 | when a connection and a server run together, the messages dispatched are those of the run, so that the hypothesis of NilIsABarrier holds |
| RoundtripBarrier.RoundtripReachesTheServer | client/display.go:12-37 | after every run of a connection with an ordered server, a Roundtrip that returns nil is a barrier for all requests written before it, whatever the server does meanwhile and however what it sends is cut |
| RoundtripBarrier.RoundtripHappens | client/display.go:12-37 | such a Roundtrip exists: the first one of a connection, answered by the server |
| FixedPoint.FixedFromFloat64 | client/util.go:13-17 | if the addition is rounded as IEEE 754-2019 section 4.3.1 demands, the result is 256 times the double rounded to nearest, ties to even, modulo 2^32; it is that number exactly when it fits 32 bits |
| FixedPoint.CandidateIsRounded | client/util.go:13-17 | the rounded sum exists for every double in range, and it is the one with that number in its mantissa |
| FixedPoint.FixedToFloat64 | client/util.go:7-11 | the double is exactly the fixed-point number divided by 256 |
| FixedPoint.FixedRoundTrip | client/util.go:7-17 | converting to a double and back returns every fixed-point number |
| FixedPoint.Float64Arrives | client/request.go:81-85 | a float64 in range that is passed as an argument of a request is decoded as the nearest multiple of 1/256, and the double the receiver makes of that is exactly this multiple, at most 1/512 away |

## Left out

- `Connect`, `unixConnFromFD`, `ControlFD` and `SetReadDeadline`: environment, file descriptors and system calls; a deadline is a result the socket's script may contain.
- The socket itself: its calls return what a script says. A read count is never negative, since `readExactWith` does not check for that, and a reported write count is what the socket took. A script may let an expired call bring data or descriptors, which a socket of the Go library does not; so the one deadline inside a message that is not fatal, which `Deadlines.HeaderOutlivesDeadline` exhibits, is a property of `readExactWith` and not of a connection. A closed socket is an exhausted script: reads end and writes fail.
- `getFdsFromOob`: control messages are a list of descriptors or a record that does not parse; the descriptors in front of a bad record, which the code closes or drops, are not counted.
- Big-endian hosts: `Uint32` and `PutUint32` use the host's order, here little-endian, and the `unsafe` casts are functions on bytes.
- The scratch buffers for the header and for control data: they are allocated per read here, where the code keeps them in the context.
- Data shared with the message buffer: strings are values here, so that `String` aliases the buffer is not visible.
- `Unregister`, and `SetID` on a registered proxy: nothing calls them, and either one breaks the rule that the map's key is the proxy's ID.
- `Context`: which context a proxy belongs to is not recorded; there is one context.
- Handlers that call `Dispatch` or `ReadMsg` themselves: a handler is a list of deeds that end before the dispatch does.
- Several goroutines: the code leaves a connection to one of them; only the zombie flag is atomic.
- A failing `Sync` inside `Roundtrip`, beyond its error: the wrapping of errors and the log line of a failing `Destroy` are not modelled, and errors keep only their identity.
- Requests as methods of each interface in `client/client.go`, `cursorshape/`, `idle/`, `sessionlock/` and `textinput/`: they are instances of compiled signatures. So are their `Dispatch` and `AbsorbNewIDs`.
- Descriptors of signatures with several descriptor arguments: an event takes at most one, and so does a request, as the generator assumes; the round trip is stated for such signatures.
- Scanner text: XML, names, comments, imports, formatting, enums. An emitted statement is a value of a datatype, and the choice between `client.` and local names is not visible.
- In the object protocol a compositor that ends one of its own objects without the client's destroy, and one that breaks its ordering rules; what the client does then is in `Connection`, not in `ObjectProtocol`.
- Types of requests: a request of the object protocol is written as a frame from its sender that names its new object and its arguments, with any opcode; which requests a type has is not recorded, and a destructor has no object arguments.
- Objects that the server ends on its own, such as callbacks: the client does not name them in requests, because it could not know in time that they are gone.
- Handlers that act, in `Joint`: a dispatch there has a handler that only looks, and what a handler does follows as turns of its own; `Delivery.DeedsAreCalls` says that this is the same. Deadlines, closed sockets and failed writes end the runs of `Joint`; they are in `Sessions`, `Deadlines` and `Framing`.
- `SessionsSurviveDestruction`: is stated for handlers that only look, because destroying a proxy silences its handlers, and what they would have done is then missing from the longer session.
