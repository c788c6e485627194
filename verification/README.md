# Verified core of Mockly

Mockly is a mock server for many protocols. This project models, in Dafny 4.11,
the parts of it whose correctness is not evident from reading one function: its
wire codecs, its per-connection and per-stream state machines, its blocking
call log, reference inlining, rate limiting and configuration layering. Each
part has a model of the code and theorems about that model. `dafny verify
dfyconfig.toml` checks the whole project.

How the parts are built:

- Code that updates fields, slices or maps step by step is a class or a method
  with loops, proved against a function or a predicate on values. The theorems
  are about those functions and predicates.
- Concurrent code (the stream loops with their `select`, `Log` with `WaitFor`)
  is a step function. A run is any list of steps, so a theorem about every list
  is a theorem about every interleaving. A step that is not ready changes
  nothing.
- Clocks, generated ids, template rendering, JSON validity, the file system and
  the individual HTTP matchers are parameters.
- Go strings that come off the wire are octet sequences. Other strings are
  Dafny strings; Go's byte-wise order agrees with their character order.

| file | models |
|---|---|
| `AmqpRouting.dfy` | topic matcher, bindings, queues |
| `AmqpFrames.dfy`, `Bytes.dfy` | AMQP frames and short strings |
| `AmqpConnection.dfy` | content assembly over interleaved channels |
| `KeepOpenStream.dfy`, `StreamProtocols.dfy` | the keep-open loop and its HTTP, gRPC and GraphQL instances |
| `StreamRegistry.dfy` | pushes and closes from the management API |
| `BidiStream.dfy` | bidirectional gRPC streams |
| `CallLog.dfy` | the request log and `WaitFor` |
| `History.dfy` | the three bounded histories |
| `JsonPointer.dfy`, `InlineRefs.dfy` | pointers and `$ref` inlining |
| `Ber.dfy`, `LdapReader.dfy`, `LdapRequests.dfy`, `LdapConnection.dfy` | LDAP codec, packet reader, bind and search requests, sessions |
| `RateLimit.dfy`, `ScenarioStore.dfy` | rate windows, active scenarios, effective fault |
| `MergeById.dfy` | layering of included configuration |
| `ProtoGenerator.dfy` | fresh ids and example messages from `.proto` files |
| `HttpMatching.dfy` | mock choice and its diagnosis |
| `HttpExpansion.dfy` | directory expansion and its collision check |
| `Text.dfy`, `Options.dfy`, `Basics.dfy` | strings, options and small shared facts |

`mergeByID` exists twice in the repository, in `internal/config/config.go` and
`internal/configgen/configgen.go`, line for line the same; one model serves
both.

Where the code does not do what one might expect, the model follows the code
and the theorem gives the exact condition:

- An AMQP publish is processed only by a body frame. An empty content sent
  without body frames, as section 4.2.6 of AMQP 0-9-1 allows, is never
  processed (`AllProcessedIffNoneEmpty`).
- An AMQP method frame under four octets panics the server. That happens exactly
  when it is the first frame of a connection that ends it
  (`EndsWithFirstEnder`, `EmptyMethodCrashes`).
- The LDAP packet reader uses single reads for the header and length octets. Up
  to the first message that ends the connection, a session is read as sent
  exactly when no segment ends inside them (`SessionIffUndivided`). Its length
  writer has two octets, so a message decodes exactly when its body is under
  65536 octets (`DecodesIffFits`).
- LDAP lengths of eight octets or more can wrap to a negative number, on which
  the reader, the envelope parser, or the walk through a search or bind request
  panics. Nothing recovers, so one such request ends the process.
  `ReaderPanicsIff`, `ParserPanicsIff` and `DiesIff` say exactly when, and
  `ServerSeesAllIff` what that means for a session. A bind is walked only when
  users are configured (`BindTakesServerDownIffUsers`), a search always
  (`SearchTakesServerDown`).
- A gRPC error entry with code 0 ends the call as a success, without its message:
  `status.Error` with the OK code is no error (`GrpcStatusExplained`).
- The rate limiter is documented as looking at the trailing second. It counts
  in windows, so a second can let 2n - 1 requests through
  (`AtMostTwiceTheLimit`), and for every limit n some second does
  (`BoundIsReached`). The documented limit holds for all requests exactly when n
  is 1 (`DocumentedLimitIffOne`), and for any n in the seconds that start with a
  window (`LimitHoldsFromWindowStart`).
- Inlining leaves a `$ref` whose value is not a string in place
  (`NoRefLeftIffAllStrings`), and a document deeper than the limit is cut
  (`InlineIsUnfoldingIffCutsHarmless`).
- The comment on `ExpandHTTPMocks` says any two mocks with one method and path
  are an error. The code lets hand-written mocks share them, and those only
  (`SharedPathAccepted`, `AcceptedIffSharersHandWritten`). It compares them joined
  by a space, which confuses two methods exactly when one, with a space behind
  it, begins the other (`KeysClashIffAmbiguous`).

## Model

| member | source | states |
|---|---|---|
| AmqpRouting.TopicMatchSegments | internal/protocols/amqpserver/server.go:405-431 | The backtracking matcher accepts exactly the keys whose words can be cut into consecutive runs, one per pattern word: any run for `#`, one word for `*`, the word itself for a literal |
| AmqpRouting.AcceptsFirst | internal/protocols/amqpserver/server.go:405-431 | A pattern accepts a key exactly when its first word takes some prefix and the other words accept the rest |
| AmqpRouting.AcceptsConcat | internal/protocols/amqpserver/server.go:397-431 | A pattern in two halves accepts a key exactly when the key has two halves they accept |
| AmqpRouting.HashHashIsHash | internal/protocols/amqpserver/server.go:397-431 | `#.#` anywhere in a pattern accepts what `#` accepts there |
| AmqpRouting.LiteralAcceptsItself | internal/protocols/amqpserver/server.go:425-430 | A pattern without wildcards accepts itself and nothing else |
| AmqpRouting.LiteralTopicIsEquality | internal/protocols/amqpserver/server.go:401-403 | A dotted pattern without wildcard words matches a dotted key exactly when the strings are equal |
| AmqpRouting.ExchangeType | internal/protocols/amqpserver/server.go:361-371 | The type of the first exchange declared under the name, "direct" when none or unset |
| AmqpRouting.DecideBinding | internal/protocols/amqpserver/server.go:380-395 | Fanout and empty patterns match any key, topic patterns by words, everything else by equality |
| AmqpRouting.RouteToQueues | internal/protocols/amqpserver/server.go:338-356 | The result lists, in binding order, the queue of each binding that is the first to route to its queue |
| AmqpRouting.RoutedExactlyOnce | internal/protocols/amqpserver/server.go:335-356 | No queue is listed twice and a queue is listed exactly when some binding routes to it |
| AmqpFrames.ReadFrame | internal/protocols/amqpserver/server.go:492-511 | A frame that was read leaves a proper suffix of the input |
| AmqpFrames.FrameRoundTrip | internal/protocols/amqpserver/server.go:492-525 | A written frame reads back as itself, leaving what follows, exactly when its payload is at most 10 MiB |
| AmqpFrames.FrameReadIff | internal/protocols/amqpserver/server.go:492-525 | A frame is read off exactly the inputs that begin with it as it would be written, payload within the limit |
| AmqpFrames.StreamRoundTrip | internal/protocols/amqpserver/server.go:492-525 | Any list of frames with payloads within the limit, written one after another, is read back as that list |
| AmqpFrames.ShortStrRoundTrip | internal/protocols/amqpserver/server.go:595-610 | A short string reads back cut to 255 octets, with the remainder untouched |
| AmqpFrames.ShortStrReads | internal/protocols/amqpserver/server.go:595-603 | On any octets a short string has the announced length, zeros standing for missing octets, and leaves what lies behind it |
| AmqpFrames.ParsePublishRoundTrip | internal/protocols/amqpserver/server.go:581-587 | The exchange and routing key a client encodes are the ones the server parses |
| AmqpConnection.Connection.HandleFrame | internal/protocols/amqpserver/server.go:159-182 | One frame takes the connection from its publishes, processed contents and status to those the step function gives |
| AmqpConnection.HandleConn | internal/protocols/amqpserver/server.go:145-183 | For a client that sends the header and any interleaving of frames, exactly the contents with a body frame are processed on each channel, whole and in order; without the header nothing is; the connection is open exactly while no frame ended it, and the server crashes exactly when the first that did is a method frame under four octets |
| AmqpConnection.SentContentsProcessed | internal/protocols/amqpserver/server.go:145-183 | The first of these as a statement about everything such a client sends |
| AmqpConnection.CloseEndsConnection | internal/protocols/amqpserver/server.go:213-215 | Connection.Close ends the connection and nothing after it is looked at |
| AmqpConnection.EndsWithFirstEnder | internal/protocols/amqpserver/server.go:159-166 | A connection stays open exactly while no frame ends it, and crashes exactly when the first that does is a method frame too short for a class and a method |
| AmqpConnection.EmptyMethodCrashes | internal/protocols/amqpserver/server.go:159-166 | The protocol header and an empty method frame crash the server, whatever follows |
| AmqpConnection.ChannelsAreIndependent | internal/protocols/amqpserver/server.go:154-182 | For every interleaving, what is processed on a channel is what that channel's own frames, up to the connection's end, produce alone |
| AmqpConnection.BodiesComplete | internal/protocols/amqpserver/server.go:171-178 | The body frames of a waiting publish, however cut, complete it exactly once with their concatenation; later frames are ignored |
| AmqpConnection.ContentProcessed | internal/protocols/amqpserver/server.go:167-178 | A publish with its header and bodies is processed once, whole, exactly when it has a body frame |
| AmqpConnection.InterleavedContentsAssembled | internal/protocols/amqpserver/server.go:154-182 | Whatever other channels send, a channel whose content frames spell a list of contents has exactly those with a body frame processed, once each and in order |
| AmqpConnection.WireContentsAssembled | internal/protocols/amqpserver/server.go:145-183 | The same for the octets of the frames as the server reads them |
| AmqpConnection.AllProcessedIffNoneEmpty | internal/protocols/amqpserver/server.go:171-178 | For clients that send no body frame for an empty content, in any interleaving, the publishes of a channel are all processed, whole and in order, exactly when none is empty |
| KeepOpenStream.Serve | internal/protocols/httpserver/server.go:1017-1050 | The loop over timer, push, close and disconnect, under any schedule, leaves output, reason and channels as the runs do that the rows below are about |
| KeepOpenStream.EveryRunKeepsInv | internal/protocols/httpserver/server.go:995-1050 | In every reachable state the output is the scheduled events and accepted pushes in order, the queue is bounded, and an ended stream has its explanation |
| KeepOpenStream.NothingLostWhileRunning | internal/protocols/httpserver/server.go:1026-1049 | While running, configured frames are the in-order prefix of the list and accepted pushes are those delivered followed by those queued, at most 16 |
| KeepOpenStream.WrittenInOrder | internal/protocols/httpserver/server.go:1026-1049 | The same event by event and push by push |
| KeepOpenStream.AcceptedAsPushed | internal/protocols/httpserver/server.go:1000-1007 | In every run the pushes accepted are those pushed, in order, less some, and less none when at most 16 were |
| KeepOpenStream.PushAcceptedIff | internal/protocols/httpserver/server.go:1000-1007 | A push is accepted exactly when fewer than 16 accepted before it still wait |
| KeepOpenStream.FirstCloseAccepted | internal/protocols/httpserver/server.go:1008-1013 | The closes accepted are those given, in order, less some, and the first given is the first accepted |
| KeepOpenStream.ReadyPushesWritten | internal/protocols/httpserver/server.go:1040-1044 | From every running state, taking pushes while any wait writes every push accepted, in order |
| KeepOpenStream.ReadyCloseEnds | internal/protocols/httpserver/server.go:1026-1039 | A running loop that was closed ends when it looks, with the first message given; a client that leaves ends it too |
| KeepOpenStream.FailedSendEnds | internal/protocols/grpcserver/server.go:277-301 | Where sends can fail, one that does ends the stream and writes nothing; where they cannot, it makes no difference |
| KeepOpenStream.ClosedByFirstClose | internal/protocols/httpserver/server.go:1032-1039 | A stream ended by a close carries the first close message it was given, and writes only that protocol's closing frame after everything else |
| KeepOpenStream.SilentAfterEnd | internal/protocols/httpserver/server.go:1026-1049 | After the end nothing more is written and the reason does not change |
| KeepOpenStream.PlainLoop | internal/protocols/grpcserver/server.go:230-250 | The loop without keep-open writes every event in order up to the first that ends the stream or whose send fails |
| KeepOpenStream.FailedSendCutsPlain | internal/protocols/grpcserver/server.go:244-246 | Failed sends only cut that output short; without any it is the whole list up to the first entry that ends the stream |
| KeepOpenStream.ConfiguredPrefixOfPlain | internal/protocols/grpcserver/server.go:230-305 | Whatever is pushed or closed, the configured frames are a prefix of what the plain loop writes |
| KeepOpenStream.QuietRunPrefixOfPlain | internal/protocols/httpserver/server.go:983-1050 | Without pushes and closes the whole output is a prefix of the plain loop's |
| KeepOpenStream.AllTimersWritePlain | internal/protocols/httpserver/server.go:983-1050 | When every timer fires and every write succeeds it is the plain loop's output |
| StreamProtocols.HttpEndsOnlyFromOutside | internal/protocols/httpserver/server.go:936-941 | A kept-open HTTP stream ends only by its client or a close, and has then written exactly the events whose timers fired |
| StreamProtocols.HttpWritesInOrder | internal/protocols/httpserver/server.go:963-1049 | Events go out rendered under their own name and id, pushes verbatim, each in order; none is missing but those queued |
| StreamProtocols.GrpcSendsInOrder | internal/protocols/grpcserver/server.go:281-303 | gRPC replies go out marshalled and pushes verbatim, each in order; none is missing but those queued |
| StreamProtocols.GraphQLSendsInOrder | internal/protocols/graphqlserver/server.go:421-476 | Subscription events go out rendered and pushes verbatim, each in order and each valid JSON; none is missing but those queued |
| StreamProtocols.GraphQLEndsOnBadData | internal/protocols/graphqlserver/server.go:421-476 | A subscription ends by itself only on an event or push that is not JSON, never on a failed write |
| StreamProtocols.GrpcFailedSendEnds | internal/protocols/grpcserver/server.go:277-301 | A reply or push that cannot be sent ends a gRPC call |
| StreamProtocols.CloseIsAnnounced | internal/protocols/graphqlserver/server.go:448-458 | A close with a message ends HTTP and GraphQL with that message as their last frame; without one HTTP writes nothing and GraphQL "complete"; gRPC writes no frame either way |
| StreamProtocols.GrpcStatusExplained | internal/protocols/grpcserver/server.go:264-303 | A closed gRPC stream returns Aborted with the message of the first close accepted, OK when that is empty; OK when the client left; an error entry, the first entry that could not be sent, ends the call as a success without its message exactly when its code is 0, and otherwise returns its message and its code, Unknown for a code outside 0 to 16; an unmarshallable one returns Internal; a push never ends the call |
| StreamProtocols.GrpcSilentFromFirstError | internal/protocols/grpcserver/server.go:289-303 | From the first error entry of a gRPC stream on, nothing configured is sent |
| StreamProtocols.GraphQLSendsOnlyJson | internal/protocols/graphqlserver/server.go:421-476 | A subscription sends only valid JSON as data, whatever was configured or pushed |
| StreamRegistry.Registry.Register | internal/streamregistry/registry.go:61-64 | From then on a push or close to the id, unless empty, reaches the new stream alone, one to its mock reaches it besides those it reached before, one to another mock does not; the stream has room and the other connections are as they were |
| StreamRegistry.Registry.Unregister | internal/streamregistry/registry.go:65-69 | From then on no push or close, however addressed, reaches the stream, and each reaches exactly the others it reached before |
| StreamRegistry.Registry.ByMock | internal/streamregistry/registry.go:90-100 | Each connection serving the mock once and no other |
| StreamRegistry.Registry.Push | internal/streamregistry/registry.go:106-133 | Every target with room gets the data and nothing else changes; the count is the number of queues that grew; there is an error exactly when there was no target or one had no room, and it names one |
| StreamRegistry.Registry.CloseConn | internal/streamregistry/registry.go:137-154 | Every target with a free mailbox gets the message and nothing else changes; the count is the number of targets, with an error exactly when it is zero |
| StreamRegistry.OfferedIsAfter | internal/streamregistry/registry.go:106-154 | What Push and CloseConn promise determines the connections after them |
| StreamRegistry.StepsAreCalls | internal/streamregistry/registry.go:61-154 | The steps of a registry run do what Register, Unregister, Push, CloseConn and a connection's own loop do |
| StreamRegistry.ConnectionsAreIndependent | internal/streamregistry/registry.go:61-154 | In every run of registrations, removals, pushes, closes and loop steps, a registered connection is in the state its own loop reaches, alone, on what was addressed to it since it was registered |
| StreamRegistry.EveryRunKeepsStreams | internal/streamregistry/registry.go:61-154 | So in every such run each registered stream is explained by its own protocol, events and pushes |
| BidiStream.ServeBidi | internal/protocols/grpcserver/server.go:350-430 | The keep-open loop and its receiving goroutine, under any schedule, leave the trace of the step function |
| BidiStream.KeepOpenRepliesPaced | internal/protocols/grpcserver/server.go:350-430 | In every run reply i follows at least i + 1 client messages, replies are the in-order prefix of the list before any error entry, and between turns every message handed over has been answered as far as the list goes |
| BidiStream.BidiLosesNoPush | internal/protocols/grpcserver/server.go:390-401 | While a call runs its accepted pushes are those sent, in order, followed by those queued, at most 16; a closed call ended with the first close accepted |
| BidiStream.BidiAcceptsAsGiven | internal/protocols/grpcserver/server.go:436-458 | The pushes accepted are those given, in order, less some, and less none when at most 16 were; the first close given is the first accepted |
| BidiStream.BidiClosedByFirstClose | internal/protocols/grpcserver/server.go:383-389 | A closed call ended with the first close message given |
| BidiStream.RoundsAnswer | internal/protocols/grpcserver/server.go:402-430 | From any state between messages, further messages are each received and answered in turn, as far as the list goes |
| BidiStream.ClientIsAnswered | internal/protocols/grpcserver/server.go:357-430 | So the whole trace of a client that says n things, when no answer ends the call |
| BidiStream.WaitingPushSent | internal/protocols/grpcserver/server.go:390-394 | A waiting push is sent when the loop takes it |
| BidiStream.WaitingCloseEnds | internal/protocols/grpcserver/server.go:380-389 | A waiting close ends the call with the first message given, and so does a client that leaves |
| BidiStream.BidiFailedSendEnds | internal/protocols/grpcserver/server.go:391-428 | A reply or push that cannot be sent ends the call and is not in the trace |
| BidiStream.HalfCloseNeverEnds | internal/protocols/grpcserver/server.go:313-318 | No call ends but by its client leaving, a close, an entry or push that ends it, or a failed send; a half-close alone ends none |
| BidiStream.PlainBidi | internal/protocols/grpcserver/server.go:320-348 | The same pacing without keep-open; a normal end answered every message as far as the list goes, an early one came at an error entry or a failed send, and says which |
| CallLog.EntriesByMockId | internal/logger/logger.go:114-124 | The entries of the mock, in order |
| CallLog.ClearByMockId | internal/logger/logger.go:101-111 | Compacting within the backing array leaves the other entries, in order |
| CallLog.ClearedHasNoMatch | internal/logger/logger.go:100-124 | After clearing a mock it has no entries and every other mock has all of its own |
| CallLog.FiltersSelect | internal/logger/logger.go:101-124 | Both filters pick, in order, exactly the positions that match, or that do not |
| CallLog.LogHolds | internal/logger/logger.go:57-111 | After every run the log holds, in order, exactly the entries logged that were not cleared since and were never crowded out: at no point were more than the capacity logged from them on and uncleared |
| CallLog.LogHoldsMostRecent | internal/logger/logger.go:57-98 | Without clears of single mocks these are the last entries since the last clear, as many as fit |
| CallLog.WaiterGetsLog | internal/logger/logger.go:129-154 | In every run a waiter that looks returns those of its mock if they are enough and else waits; one that runs out of time returns them too |
| CallLog.SubscriberLooks | internal/logger/logger.go:129-140 | A new waiter starts by looking |
| CallLog.EnoughLoggedReturns | internal/logger/logger.go:129-154 | When everything logged fits and its mock was not cleared, a waiter that looks once enough was logged returns all of it |
| CallLog.NoLostWakeUp | internal/logger/logger.go:57-82 | For any number of loggers, waiters and clears, no run leaves a waiter blocked on an empty channel with no send in flight while the log holds what it waits for |
| CallLog.SatisfiedWaiterCanReturn | internal/logger/logger.go:129-169 | From every reachable state a blocked waiter whose condition holds is at most one send, one receive and one check from returning the log's entries |
| CallLog.SuccessCarriesEnough | internal/logger/logger.go:129-154 | A successful return carries at least the wanted number of entries, and every return carries only entries of its mock |
| History.RingBuffer.constructor | internal/webhook/webhook.go:66-71 | An empty ring of the given size, 500 when not positive |
| History.RingBuffer.Add | internal/webhook/webhook.go:73-83 | The ring goes on holding the last items added |
| History.RingBuffer.All | internal/webhook/webhook.go:86-94 | Exactly the last items added since the last clear, oldest first, at most as many as fit |
| History.RingBuffer.Clear | internal/webhook/webhook.go:97-102 | Forgets everything added |
| History.TrimmedLog.Append | internal/logger/logger.go:65-69 | Appending and trimming keeps the last items added |
| History.TrimmedLog.Clear | internal/logger/logger.go:94-98 | Forgets everything added |
| History.MessageStore.Add | internal/protocols/amqpserver/server.go:39-46 | Dropping the first and appending keeps the last items added |
| History.MessageStore.Clear | internal/protocols/amqpserver/server.go:54-58 | Forgets everything added |
| History.Replay | internal/webhook/webhook.go:73-102 | After any adds and clears all three histories show the same: the last items added since the last clear, oldest first |
| JsonPointer.UnescapeOfEscape | internal/asyncapi/refs.go:31-32 | The two replacement passes undo the escaping of section 4 of RFC 6901 for every string |
| JsonPointer.ResolvePointer | internal/asyncapi/refs.go:24-51 | Gives a node exactly when the reference denotes it: a path of keys and indexes, one per token and as the token reads, leads there; so nothing for an external or dangling one |
| JsonPointer.WrittenDenotes | internal/asyncapi/refs.go:24-51 | The same for any reference put together from tokens |
| JsonPointer.PointerFindsNode | internal/asyncapi/refs.go:24-51 | The pointer written for any non-empty path of keys and indexes resolves to exactly the node at that path |
| JsonPointer.PointeeIsInside | internal/asyncapi/refs.go:24-51 | Whatever resolves is a node of the document |
| InlineRefs.InlineDoc | internal/asyncapi/refs.go:57-87 | The inliner ends on every document, cyclic ones included, with the value of the depth-bounded definition, and warns about exactly the references it meets and cannot resolve |
| InlineRefs.WarnedIffDangling | internal/asyncapi/refs.go:65-69 | Those are exactly the references that dangle and stand within the depth limit of the node |
| InlineRefs.InlineHeight | internal/asyncapi/refs.go:14-60 | The result is at most thirteen levels high |
| InlineRefs.NoRefLeftIffAllStrings | internal/asyncapi/refs.go:63-72 | Inlining clears every node of a document of `$ref` keys exactly when all its `$ref` values are strings |
| InlineRefs.UnfoldingUnique | internal/asyncapi/refs.go:53-56 | A node has at most one complete unfolding |
| InlineRefs.InlineIsUnfolding | internal/asyncapi/refs.go:57-87 | When the unfolding fits the depth limit the result is exactly it, with dangling and external references as empty objects |
| InlineRefs.InlineIsUnfoldingIffCutsHarmless | internal/asyncapi/refs.go:58-60 | Of any unfolding, however deep, the result is exactly it if and only if everything met past the limit unfolds to an empty object |
| InlineRefs.UnfoldableIffWalksEnd | internal/asyncapi/refs.go:53-56 | For every n a node has an unfolding within n levels of references and parts exactly when no walk over them takes more than n steps |
| InlineRefs.CyclesHaveNoUnfolding | internal/asyncapi/refs.go:10-14 | A node from which references and parts lead into a cycle, of any length, has no unfolding |
| InlineRefs.UnfoldsIffAcyclic | internal/asyncapi/refs.go:10-14 | A node has an unfolding if and only if no cycle can be reached from it |
| InlineRefs.EndlessReferencesAreEmpty | internal/asyncapi/refs.go:58-70 | References that lead only to references past the limit, as in a cycle of them, are inlined as an empty object |
| Ber.TlvLength | internal/protocols/ldapserver/server.go:323-336 | The loop over length octets computes the declared length, wrapped to 64 bits, and the size of its field |
| Ber.ReadTLV | internal/protocols/ldapserver/server.go:338-355 | Unless it panics it consumes no more octets than there are and its content is the run ending where it stopped |
| Ber.TlvTakes | internal/protocols/ldapserver/server.go:338-355 | With a complete length field and no bad length the content is the declared octets, or as many as there are |
| Ber.OverrunIffBadLength | internal/protocols/ldapserver/server.go:338-355 | On any octets it panics exactly when the length field is complete and its 64-bit length is negative or, added to the offset, overflows |
| Ber.SevenLengthOctetsAreSafe | internal/protocols/ldapserver/server.go:330-335 | With at most seven length octets it never panics |
| Ber.LengthRoundTrip | internal/protocols/ldapserver/server.go:313-336 | A written length reads back modulo 65536 |
| Ber.TlvRoundTrip | internal/protocols/ldapserver/server.go:306-355 | A tagged value reads back, leaving what follows, exactly when its content is under 65536 octets |
| Ber.EncodeInt | internal/protocols/ldapserver/server.go:357-367 | The octets of the number, most significant first; none for a negative one |
| Ber.IntRoundTrip | internal/protocols/ldapserver/server.go:178-181 | The octets of every non-negative number give it back |
| Ber.ParseRoundTrip | internal/protocols/ldapserver/server.go:171-184 | A built message that fits parses back into its id, tag and content |
| LdapReader.Conn.ReadBerPacket | internal/protocols/ldapserver/server.go:142-169 | The reader returns the packet, error or panic that its function gives for the octets and the places where segments end, and stands behind the packet |
| LdapReader.PacketReadIff | internal/protocols/ldapserver/server.go:142-169 | A packet is read exactly when its header is there and declares between 0 octets and 10 MiB that are there too, and it is the header followed by those |
| LdapReader.ReaderPanicsIff | internal/protocols/ldapserver/server.go:149-164 | The reader panics exactly when the length octets it got make a negative 64-bit number, which takes at least eight of them |
| LdapReader.ParserPanicsIff | internal/protocols/ldapserver/server.go:171-184 | A packet that was read, whatever arrived, panics the parser exactly when its first value has a bad length, or is an integer and the value after it has one |
| LdapReader.ShortLengthsParse | internal/protocols/ldapserver/server.go:171-184 | So two values with at most seven length octets each never panic the parser |
| LdapReader.TwelveOctetsPanicTheParser | internal/protocols/ldapserver/server.go:332-354 | Twelve octets that are read whole and panic the parser |
| LdapReader.TenOctetsPanicTheReader | internal/protocols/ldapserver/server.go:155-164 | Ten octets that panic the reader |
| LdapReader.MessageReadIffUndivided | internal/protocols/ldapserver/server.go:142-169 | A built message that fits is read whole exactly when no segment ends inside its header or two-octet length |
| LdapRequests.WalkPanicsIff | internal/protocols/ldapserver/server.go:338-355 | Reading any number of values one after another panics exactly when one that is reached has a bad length |
| LdapRequests.ParseSearchRequest | internal/protocols/ldapserver/server.go:222-234 | The base and the filter written out again, behind the five values the loop skips, or a panic |
| LdapRequests.SearchPanicsIff | internal/protocols/ldapserver/server.go:222-234 | A search request panics exactly when one of its first seven values is reached with a bad length |
| LdapRequests.SearchRoundTrip | internal/protocols/ldapserver/server.go:222-234 | Of values of writable lengths it finds the first as the base and the very octets of the seventh as the filter |
| LdapRequests.BindPanicsIff | internal/protocols/ldapserver/server.go:191-202 | A bind request panics exactly when one of its first three values is reached with a bad length |
| LdapRequests.BindRoundTrip | internal/protocols/ldapserver/server.go:191-202 | Of values of writable lengths it finds the second as the name, and the third as the password exactly when authentication is simple |
| LdapRequests.DiesIff | internal/protocols/ldapserver/server.go:80-101 | A request takes the server down exactly when it is a search, or a bind with users configured, that panics |
| LdapRequests.EncodedRequestsAreSafe | internal/protocols/ldapserver/server.go:80-101 | No request written as values of writable lengths does |
| LdapConnection.Dispatch | internal/protocols/ldapserver/server.go:80-137 | The switch over operations goes on, leaves or panics as its function says |
| LdapConnection.HandleConn | internal/protocols/ldapserver/server.go:70-140 | The loop sees the packets and envelopes its function gives, up to an unbind, an error or a panic in the reader, the parser or the walk through a request |
| LdapConnection.SessionIffUndivided | internal/protocols/ldapserver/server.go:70-184 | Any concatenation of built messages that fit is seen, up to and including the first that unbinds or takes the server down, as exactly those messages with their ids, tags and contents if and only if no segment ends inside a header or two-octet length of theirs |
| LdapConnection.AllSeenIff | internal/protocols/ldapserver/server.go:70-184 | For any way of answering, all messages are seen and nothing else happens if and only if none but the last ends the connection, that one only by unbinding, and the segments are so |
| LdapConnection.ServerSeesAllIff | internal/protocols/ldapserver/server.go:70-184 | For this server: if and only if no search, and with users configured no bind, holds a bad length among the values it walks, only the last message unbinds, and the segments are so |
| LdapConnection.SearchTakesServerDown | internal/protocols/ldapserver/server.go:222-234 | Seventeen octets, a search that is read and decoded whole, after which nothing is read, with or without users |
| LdapConnection.BindTakesServerDownIffUsers | internal/protocols/ldapserver/server.go:81-86 | A bind that takes the server down exactly when users are configured |
| LdapConnection.EnvelopesIffUndivided | internal/protocols/ldapserver/server.go:142-184 | With nonzero operation tags the list of decoded ids, tags and contents alone is right if and only if the segments are so |
| LdapConnection.DecodesIffFits | internal/protocols/ldapserver/server.go:313-321 | In one segment, a built message decodes to itself exactly when its body is under 65536 octets |
| RateLimit.WindowsApart | internal/scenarios/store.go:223-227 | Any two windows of a key opened at least a second apart, whatever the clock does |
| RateLimit.WindowOf | internal/scenarios/store.go:216-229 | The window of a request opened at some request, holds all requests since, which came within its second, and opened a second or more after the one before |
| RateLimit.FirstOfWindowPass | internal/scenarios/store.go:228-229 | A request passes exactly when it is among the first n of its window |
| RateLimit.AtMostTwiceTheLimit | internal/scenarios/store.go:216-230 | With non-decreasing times no half-open second lets more than 2n - 1 requests through |
| RateLimit.BoundIsReached | internal/scenarios/store.go:211-230 | For every limit n some requests do get 2n - 1 through within a second |
| RateLimit.DocumentedLimitIffOne | internal/scenarios/store.go:211-215 | A positive limit n, documented as n in any trailing second, holds for all requests exactly when n is 1 |
| RateLimit.LimitHoldsFromWindowStart | internal/scenarios/store.go:223-229 | A second that starts where a window opened never lets more than n through |
| ScenarioStore.Store.Set | internal/scenarios/store.go:68-76 | The scenario is stored under its own or the generated id; the active set is untouched and still defined |
| ScenarioStore.Store.Delete | internal/scenarios/store.go:79-86 | The scenario is neither defined nor active any more; says whether it was defined |
| ScenarioStore.Store.Activate | internal/scenarios/store.go:89-97 | Activates exactly the scenarios that are defined |
| ScenarioStore.Store.Deactivate | internal/scenarios/store.go:100-104 | Removes exactly that scenario from the active set |
| ScenarioStore.Store.RateLimited | internal/scenarios/store.go:216-230 | A limit of zero or less never limits; otherwise the request is limited unless it passes among the requests seen under its key, and other keys are untouched |
| ScenarioStore.Store.EffectiveFault | internal/scenarios/faults.go:11-35 | The fault of the greatest-id active scenario that defines one, else the direct fault, for every order of the walk |
| ScenarioStore.InEffectUnique | internal/scenarios/faults.go:17-35 | That fault is unique, so the map's order cannot show |
| Text.LessIff | internal/scenarios/faults.go:24-24 | One id is less than another exactly when it ends, or has the smaller character, where they first differ |
| MergeById.MergeByID | internal/config/config.go:1979-1999 | The index-accelerated merge equals folding "replace the last entry with this id, else append" |
| MergeById.MergeKeepsOrder | internal/config/config.go:1973-1978 | Base ids keep their order at the front and distinct ids stay distinct |
| MergeById.MergedIds | internal/config/config.go:1979-1999 | The ids of a merged list are those of the base, then each new one where it first comes |
| MergeById.BaseEntriesStay | internal/config/config.go:1979-1999 | A base entry is replaced exactly if it is the last of its id and the id comes again, and then by the last such entry |
| MergeById.LastEntryWins | internal/config/config.go:1979-1999 | Under every id the merged list has the last included entry, or else the base's |
| MergeById.MergeAssociative | internal/config/config.go:1979-1999 | Merging is associative for all lists, repeated ids included |
| MergeById.MergeConfigAssociative | internal/config/config.go:1822-1971 | So is merging whole files, for any set of protocol sections, each with any lists merged by id and any lists appended, sections absent or present |
| MergeById.IncludesTogether | internal/config/config.go:1777-1810 | Folding included files in one by one equals merging them together first |
| MergeById.EveryFileContributes | internal/config/config.go:1777-1971 | Every list of every protocol, over all files that have it in order: the first file's list with the entries of all others merged in, or for appended lists all in a row |
| MergeById.LastFileWins | internal/config/config.go:1812-1821 | Under every id the merged list has the entry of the last file that mentions it |
| MergeById.ScenariosAccumulate | internal/config/config.go:1823-1823 | Scenarios accumulate in file order |
| MergeById.FirstFileOwnsSection | internal/config/config.go:1812-1821 | A protocol is configured exactly when some file has it; the first file that does, main or included, keeps its settings, and each of its lists stays at the front of the merged one: its ids where lists merge by id, its entries where they append |
| ProtoGenerator.IdSource.UniqueId | internal/protoidl/protoidl.go:310-320 | The search ends, with the first free one of the name and its numbered forms, and takes it |
| ProtoGenerator.Pigeonhole | internal/protoidl/protoidl.go:315-317 | No more numbered forms of a name can be taken than there are ids taken |
| ProtoGenerator.HandOut | internal/protoidl/protoidl.go:116-137 | All ids handed out over a run are distinct |
| ProtoGenerator.ChooseFields | internal/protoidl/protoidl.go:267-292 | The sorted walk keeps the free fields and the least-named field of each oneof |
| ProtoGenerator.OneFieldPerOneof | internal/protoidl/protoidl.go:260-266 | Every written oneof with members has exactly one in the example, and every field outside one is there |
| ProtoGenerator.ExampleShowsFields | internal/protoidl/protoidl.go:173-292 | An example is an object with exactly the chosen fields; a repeated field has one element, a map field one key, a nested message again its chosen fields, down to the depth limit |
| ProtoGenerator.ExampleHeight | internal/protoidl/protoidl.go:173-292 | On every message graph, cycles included, the example ends, at most twenty levels high |
| HttpMatching.Accepts | internal/engine/matcher.go:118-164 | A mock is accepted exactly when all eleven checks pass |
| HttpMatching.PassesAllIff | internal/engine/matcher.go:118-164 | The eleven checks, each on the section it is about |
| HttpMatching.HttpMatch | internal/engine/matcher.go:106-207 | The first mock that passes all checks, none exactly when none does |
| HttpMatching.Evaluate | internal/engine/matcher.go:244-331 | The depth is the number of checks passed before the first that fails |
| HttpMatching.InsertStable | internal/engine/matcher.go:336-336 | One candidate is placed by depth, configuration order deciding between equals |
| HttpMatching.Diagnose | internal/engine/matcher.go:228-346 | The listed mocks are the first min(3, n) of all mocks ranked by depth, ties in configuration order, each with its id and the reason for the check it stopped at |
| HttpMatching.MatchIsTopOfDiagnosis | internal/engine/matcher.go:118-336 | On one snapshot a match is the diagnosis' first entry with all checks passed, and there is none exactly when no entry passed them all |
| HttpMatching.NoneOmittedIsCloser | internal/engine/matcher.go:336-340 | A mock not listed got no further than any listed, and as far only if configured later |
| HttpExpansion.KeysClashIffAmbiguous | internal/config/httpbody.go:331-331 | Two methods can be given paths that differ as a pair and make one key exactly when one method, with a space behind it, begins the other |
| HttpExpansion.KeyIsMethodAndPath | internal/config/httpbody.go:331-331 | When neither method holds a space, keys are equal exactly when upper-cased methods and paths are |
| HttpExpansion.FindConflict | internal/config/httpbody.go:325-338 | Remembering only first owners, the check finds a conflict exactly when two entries share method and path and one was generated; it names the first owner and the earliest such entry |
| HttpExpansion.ExpandHttpMocks | internal/config/httpbody.go:278-340 | Fails as unreadable exactly when some file or directory does, naming the first; otherwise reports a conflict exactly when the expanded list has one, else returns that list |
| HttpExpansion.ExpandedInPlace | internal/config/httpbody.go:284-315 | Every directory's files stand in their order where the directory stood, every other mock where it stood, and nothing else |
| HttpExpansion.AcceptedIffSharersHandWritten | internal/config/httpbody.go:318-338 | A readable list is accepted exactly when any two entries with one method and path are both hand-written |
| HttpExpansion.DuplicateAcceptedIff | internal/config/httpbody.go:274-338 | A list with a duplicate is accepted exactly when two hand-written entries share a method and path and nothing collides |
| HttpExpansion.SharedPathAccepted | internal/config/httpbody.go:318-324 | Two hand-written mocks for one method and path that are accepted |
| HttpExpansion.PlainMocksKeepOrder | internal/config/httpbody.go:262-268 | The mocks that are not directories keep their order around the expansions |

## Left out

- HttpMatching.Diagnose: the wording of a reason is a parameter; where several headers or query keys fail, the source names whichever its map walk meets first.
- InlineRefs.InlineDoc: a warning is recorded by its reference; its wording and the order of warnings, which follows Go's map order, are not modelled.
- MergeById.MergeConfigAssociative: merging whole files is modelled on values, not as updates of the main file's structure in place.
- RateLimit.AtMostTwiceTheLimit: takes requests in the order of their times; the source reads the clock before it takes the lock, so two racing requests may be counted in the other order.
- StreamProtocols.HttpWritesInOrder: the text framing of server-sent events on the socket is not modelled, only which event is written.
- ProtoGenerator.ExampleHeight: the warnings for approximated well-known types are not modelled.
- Freedom from panics of the LDAP reader, parser and request walks on arbitrary octets: false of the code; the exact conditions are stated instead.
- AMQP delivery to consumers, the flat exchange-and-key matching of mocks and its regular expressions.
- LDAP credentials, search authorisation, matching of filters and the encoding of search entries; a connection's answers are not modelled, only whether it goes on.
- Timer lengths and progress of the stream loops: a push restarts a pending timer, so only order and conservation are stated.
- A subscriber's cancellation closing its channel while a send to it is under way, and clashes of subscriber ids; the wait model stops at a waiter's return.
- The registry's lock-free window between finding a connection and pushing to it: a push or close after the end of a stream is modelled, one through a stale listing is not.
- Path patterns, headers, query, body and authentication matchers of HTTP mocks, and response rendering.
- `PatchFor` with several active scenarios patching one mock, which depends on map order.
- The counter-based ids of the OpenAPI and AsyncAPI generators, and AsyncAPI message extraction.
- Walking directories, path resolution and glob matching of include patterns.
- Sockets, TLS, tokens, metrics, the management API handlers, the command line, the user interface and the client libraries.
