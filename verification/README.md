# A verified model of the device's RPC, message-queue, GPS and audio logic

The repository is the hardware support layer of a phone: an ONC RPC library over XDR with which
the processors of the phone talk to each other, the GPS library built on it, and the audio
hardware and policy code. This project models the parts of it that hold state or transform data
in ways that are hard to see through, and proves what they are for.

`dafny verify dfyconfig.toml` checks the whole project.

## The parts

**RPC.** `XdrObjects` says what C objects the XDR routines handle, which heap blocks an object owns
and what value it stands for. `XdrSpec` gives the ENCODE, DECODE and FREE modes of the routines as
functions over bytes and an allocator; `XdrLaws` proves that DECODE inverts ENCODE, and `XdrHeap`
that DECODE followed by FREE conserves the heap. `XdrResend` proves the converse of the round trip:
what was received can be sent again; `XdrFailures` is about allocators that fail. `WireFormat`
defines the bytes of the XDR standard by themselves and proves that ENCODE sends those, and when.
`XdrStream` holds the handle with its buffers and cursors and the allocator as classes, and
`XdrRoutines` and `XdrComposites` the routines themselves, which have one body for all modes as in
C and are proved to compute the functions. `RpcHeaders` is the call and reply headers, in the same
two forms, their round trip and their bytes. `RpcCall` joins a client and a server: `RemoteCall` is
the end-to-end theorem, and `CallStatuses` says it in numbers. The formats are those of RFC 4506
(sections 4.1 to 4.5, 4.9 to 4.14 and 4.19) and RFC 5531 (section 9). `ClientThreads` is the
client's three threads around their one input buffer, as a state machine over their steps.
`ServerRegistry` is the registry of servers, a linked list with counters and descriptors kept
beside it, against the map it stands for.

**Message queue.** `LinkedList` is the doubly linked list with its nodes on the heap, against a
sequence. `MessageQueue` has the queue's critical sections as methods over that list and the
interleavings of any number of threads performing them.

**GPS.** `EngineStatus` is the engine, session and mute statuses and the notifications sent about
them, `NetworkInitiated` the protocol for requests that come from the network, and
`XtraInjection` the injection of orbit data in parts.

**Audio.** `SampleRate` is the search for a supported rate, `DeviceMask` the translation of device
masks, `AacFrames` the packing of AAC frames and `Strategy` the choice of output devices.

## What turned out not to hold

Each of these is proved, with the exact condition where there is one.

- FREE of a string longer than its limit fails and leaves blocks allocated
  (`XdrHeap.FreeReleasesAll`, `XdrHeap.FreeLeaksOverlongString`).
- A successful decode need not yield a string: exactly for the length 2^32 - 1, which only a routine
  without limit accepts, it leaves NULL (`XdrLaws.DecodedStringIsNullIff`,
  `XdrResend.LimitedStringsAreThere`), and then the object cannot be sent again
  (`XdrResend.DecodeEncodeDecode`).
- The tests of the two byte movers are right exactly below the lengths at which their sums wrap
  (`XdrStream.SendTestIsRightIff`, `XdrStream.ReceiveTestIsRightIff`).
- The block of an array is too small for its elements exactly if count times element size reaches
  2^32, which a limit of the array excludes exactly if limit times element size stays below
  (`XdrSpec.BlockHoldsElementsIff`, `XdrSpec.LimitExcludesWrapIff`).
- An error reply carries the server's own transaction id, which is always 0, so the caller learns
  the reason exactly if its own id is 0, as after 2^32 calls (`RpcCall.ErrorReplyReceived`).
- A server does not release arguments it could not decode, so blocks stay exactly if decoding fails
  after an allocation (`RpcCall.BlocksStayIff`, `RpcCall.CutStringKeepsItsBlock`).
- A dispatch function that calls through its own client deadlocks with the receive thread if one
  more call arrives first, and that is the only deadlock (`ClientThreads.ThreadsCanMoveIff`,
  `ClientThreads.DeadlockIsReachable`). The comment at `gps/libloc/librpc/clnt.c:144-148` expects
  such a call to block only until the dispatch is done.
- The caller's wait for a reply re-tests nothing, so every spurious wake-up of a caller can make a
  caller look at a message that is not for it. It compares transaction ids, so what follows is a
  failed call, and a buffer marked free under the thread the message is for
  (`ClientThreads.SpuriousCallerWakeBreaksHandOver`).
- A callback client registered beside a single real server starts a second service thread
  (`ServerRegistry.WhenAThreadIsCreated`).
- The last notified status is static, so a re-initialisation during a session that it does not
  stop, because the engine is not navigating or the stop is deferred or fails, makes the engine
  repeat the old session's begin (`EngineStatus.AgreementNeedsClosedSession`,
  `EngineStatus.OpenSessionIsInherited`).
- A late user response is kept and can answer the next request
  (`NetworkInitiated.AttributedExactlyWhenInTime`).
- Orbit data of more than 65536 bytes starts over from its beginning, and of more than 255 parts
  is sent without end (`XtraInjection.LimitIsExact`, `XtraInjection.NeverEndsBeyond255Parts`).
- Requests above 2147493160 get the lowest rate (`SampleRate.HardwareRates`).
- AAC frames packed into a buffer of more than 65543 bytes may be too long for their 16-bit size
  (`AacFrames.ReaderRecoversChunks`).
- Devices that share their 1.0 value with an earlier row do not survive translation there and back,
  and neither does the empty input mask (`DeviceMask.SurvivesIff`, `DeviceMask.SharedDeviceIsLost`).
  On the hardware these are the default output and input, which come back as the speaker and the
  built-in microphone (`DeviceMask.DefaultsAreLost`).
- The default device of the media strategy is overwritten (`Strategy.MediaHasNoDefault`): the
  assignment at `audio/AudioPolicyManager.cpp:440` falls through to the one at line 443.

## Model

| member | source | states |
|---|---|---|
| XdrLaws.RoundTrip | gps/libloc/librpc/xdr.c:10-528 | Whenever ENCODE of any object succeeds, DECODE of the bytes it wrote, from the same offset on blank storage and with an allocator that does not fail, succeeds, stops exactly where ENCODE stopped and rebuilds the same value, through arrays, structures and recursive pointers of any depth. |
| WireFormat.EncIsStandard | gps/libloc/librpc/xdr.c:10-528 | For every type and object, ENCODE succeeds if and only if no count is over its limit, no string is NULL and the bytes which the XDR standard gives the object fit into 18432, and then exactly those bytes are sent. The standard's bytes are defined literally, without buffer, cursor or failure. |
| WireFormat.EncAllIsStandard | gps/libloc/librpc/xdr.c:203-220 | The same for a run of elements. |
| WireFormat.StandardIsReceived | gps/libloc/librpc/xdr.c:10-528 | Wherever a message holds the standard's bytes of an object at a word boundary, DECODE returns its value and stops right behind them, or an allocation fails. |
| WireFormat.DecodedIsInLimits | gps/libloc/librpc/xdr.c:10-528 | Whatever message it was decoded from, an object obeys every limit of its type, if and only if none of its strings was left NULL. |
| WireFormat.ScalarsRead | gps/libloc/librpc/xdr.c:83-466 | The number each scalar routine makes of each of the 2^32 words, truncation and sign included. |
| WireFormat.OverLimitIsRefused | gps/libloc/librpc/xdr.c:10-528 | A count over its limit makes DECODE fail behind the count, with nothing allocated and the count stored, but for strings. |
| XdrLaws.RoundTripAll | gps/libloc/librpc/xdr.c:203-220 | The same for a run of elements, in order. |
| XdrFailures.RoundTripUnlessFailing | gps/libloc/librpc/xdr.c:10-528 | The round trip with any allocator: DECODE of what ENCODE wrote reproduces it or fails, and fails only if allocations can fail. |
| XdrFailures.SameIfDecoded | gps/libloc/librpc/xdr.c:10-528 | A decode of any message that succeeds is the same, blocks included, as with an allocator that never fails. |
| XdrLaws.PointerRoundTrip | gps/libloc/librpc/xdr.c:305-322 | Optional data comes back NULL or not as it was sent, and with its target, also when the target is of the same type. |
| XdrLaws.ArrayRoundTrip | gps/libloc/librpc/xdr.c:336-394 | A counted array comes back with its count and every element, NULL if it was empty. |
| XdrLaws.StringRoundTrip | gps/libloc/librpc/xdr.c:481-528 | A C string comes back with the bytes before its terminator and a terminator after them. |
| XdrLaws.DecodedStringIsNullIff | gps/libloc/librpc/xdr.c:503-515 | For every limit, input and allocator: a string decoded with success is NULL if and only if its length is 2^32 - 1, whose node size wraps to zero; a limit below that excludes the case, and only a routine without limit accepts that length. |
| XdrResend.DecodeEncodeDecode | gps/libloc/librpc/xdr.c:10-528 | Converse of the round trip: an object decoded from any message can be encoded, given the room it took, if and only if none of its strings is NULL, and decoding that again gives its value. |
| XdrResend.DecodedIsSent | gps/libloc/librpc/xdr.c:10-528 | A decoded object whose strings are there is encoded in no more room than it was received in. |
| XdrResend.SentStringsAreThere | gps/libloc/librpc/xdr.c:493-496 | ENCODE succeeds only on objects without a NULL string, at any depth. |
| XdrResend.LimitedStringsAreThere | gps/libloc/librpc/xdr.c:503-515 | If every string routine has a limit below 2^32 - 1, every string of every decoded object is there. |
| XdrLaws.BytesRoundTrip | gps/libloc/librpc/xdr.c:10-36 | A counted byte string comes back with the bytes its size field covers. |
| XdrLaws.ScalarRoundTrip | gps/libloc/librpc/xdr.c:83-191 | Every scalar comes back as sent, a boolean as 0 or 1, with the cursor behind its one or two words. |
| XdrLaws.EncBounds | gps/libloc/librpc/svc_clnt_common.c:115-161 | Whatever is sent, and whether or not it fits, the send cursor stays word-aligned and inside the buffer. |
| XdrLaws.EncAllBounds | gps/libloc/librpc/svc_clnt_common.c:115-161 | The same after any run of sends. |
| XdrLaws.DecodedIsSendable | gps/libloc/librpc/xdr.c:10-528 | Whatever message it was decoded from, an object decoded with success holds no NULL that ENCODE would dereference. |
| XdrHeap.DecOwnsWhatItAllocates | gps/libloc/librpc/xdr.c:10-528 | However DECODE ends, the object it leaves owns exactly the blocks it allocated, each once, and nothing was released. |
| XdrHeap.FreeReleasesAll | gps/libloc/librpc/xdr.c:253-528 | FREE succeeds if and only if every string in the object is within its limit; then every owned block is released once and all pointers are NULL; otherwise some block is never released. |
| XdrHeap.FreeAllReleases | gps/libloc/librpc/xdr.c:336-394 | The same for the elements of an array or vector, where the loop stops at the first failure. |
| XdrHeap.DecodeThenFree | gps/libloc/librpc/rpc.c:151-156 | Heap conservation: from NULL pointers, after decoding any message with any allocator behaviour, successfully or not, FREE succeeds, all pointers are NULL again, and exactly the blocks DECODE allocated have been released, each once. |
| XdrHeap.FreeLeaksOverlongString | gps/libloc/librpc/xdr.c:489-524 | A caller-built string longer than its limit makes FREE fail and keeps its block. |
| XdrStream.Xdr.MsgStart | gps/libloc/librpc/svc_clnt_common.c:29-73 | A message starts with the transaction id and the message type; only a call takes the next id, modulo 2^32. |
| XdrStream.Xdr.SendUint32 | gps/libloc/librpc/svc_clnt_common.c:115-121 | Appends the four bytes of the word, most significant first, and nothing else, or fails and changes nothing, exactly when they would go past byte 18432. |
| XdrStream.Xdr.SendBytes | gps/libloc/librpc/svc_clnt_common.c:152-161 | Appends the bytes, and behind them, up to a whole word, bytes that are all 0, or fails and changes nothing, exactly when the bytes would go past byte 18432; nothing is written anywhere else. |
| XdrStream.Xdr.RecvUint32 | gps/libloc/librpc/svc_clnt_common.c:196-210 | Yields the word whose four bytes, most significant first, are those at the cursor, and moves past them, exactly when they are inside the message. |
| XdrStream.Xdr.RecvBytes | gps/libloc/librpc/svc_clnt_common.c:247-254 | Yields the next bytes and moves past them and their padding exactly when they are inside the message. |
| XdrStream.Xdr.Read | gps/libloc/librpc/svc_clnt_common.c:100-112 | A message of at least two words is taken whole, with the cursor behind the message type; a shorter one leaves nothing to receive and the cursor where it was. |
| XdrStream.SendTestIsRightIff | gps/libloc/librpc/svc_clnt_common.c:155 | The test before a send refuses exactly what does not fit if and only if cursor plus length does not wrap, which is what the send requires. |
| XdrStream.ReceiveTestIsRightIff | gps/libloc/librpc/svc_clnt_common.c:249 | The signed test before a receive is right if and only if cursor plus length stays below 2^31, which is what the receive requires, or the cursor was beyond the message and the sum wraps all the way round. |
| Words.UnwordOfWord | gps/libloc/librpc/svc_clnt_common.c:115-121 | Reading a word back from its network order gives the word. |
| Words.WordOfUnword | gps/libloc/librpc/svc_clnt_common.c:196-210 | And writing it again gives the same four bytes. |
| Words.WordBytes | gps/libloc/librpc/svc_clnt_common.c:115-121 | A word is the four base-256 digits of its value, most significant first. |
| Words.UnwordBytes | gps/libloc/librpc/svc_clnt_common.c:196-210 | And its value the sum of them, weighted accordingly. |
| XdrStream.LongestSafeLength | gps/libloc/librpc/svc_clnt_common.c:249 | The limit of lengths in memory is exactly that up to which no sum with a cursor reaches 2^31. |
| XdrRoutines.XdrUInt | gps/libloc/librpc/xdr.c:83-96 | In all three modes the routine computes the mode's specification: same result, same object, same cursors, same heap. |
| XdrRoutines.XdrInt | gps/libloc/librpc/xdr.c:396-410 | The same, for signed integers. |
| XdrRoutines.XdrShort | gps/libloc/librpc/xdr.c:448-466 | The same; DECODE truncates to 16 bits with sign. |
| XdrRoutines.XdrUShort | gps/libloc/librpc/xdr.c:171-191 | The same; DECODE truncates to 16 bits. |
| XdrRoutines.XdrUChar | gps/libloc/librpc/xdr.c:98-105 | The same, through an unsigned integer truncated to 8 bits. |
| XdrRoutines.XdrBool | gps/libloc/librpc/xdr.c:222-242 | The same; any non-zero word is TRUE. |
| XdrRoutines.XdrHyper | gps/libloc/librpc/xdr.c:141-163 | The same, as high word and low word. |
| XdrRoutines.XdrOpaque | gps/libloc/librpc/xdr.c:412-430 | The same, for a fixed number of bytes, none of which touches nothing. |
| XdrRoutines.XdrBytes | gps/libloc/librpc/xdr.c:10-36 | The same, with allocation, the limit checked after the count was sent, and release. |
| XdrRoutines.XdrString | gps/libloc/librpc/xdr.c:481-528 | The same, with allocation, the length limit in every mode, the wrap of the longest length, and release. |
| XdrComposites.XdrVector | gps/libloc/librpc/xdr.c:203-220 | The loop over the elements leaves what the element routine gives one after the other, up to the first failure. |
| XdrComposites.XdrArray | gps/libloc/librpc/xdr.c:336-394 | The counted array in all three modes, with allocation of zeroed elements and release of the block after its elements. |
| XdrSpec.BlockHoldsElementsIff | gps/libloc/librpc/xdr.c:356-367 | The block of an array holds its elements if and only if count times element size does not reach 2^32. |
| XdrSpec.LimitExcludesWrapIff | gps/libloc/librpc/xdr.c:354-356 | It does for every count within a limit if and only if the limit times the element size does not reach 2^32. |
| XdrComposites.ArrayRest | gps/libloc/librpc/xdr.c:377-393 | Once the count is through and the block is there, the routine comes to its element loop and the release of the block. |
| XdrComposites.XdrReference | gps/libloc/librpc/xdr.c:253-283 | The target is allocated and zeroed if NULL, handled, and released last. |
| XdrComposites.XdrPointer | gps/libloc/librpc/xdr.c:305-322 | A presence word, then the reference; absent data makes the pointer NULL. |
| XdrComposites.PointerRest | gps/libloc/librpc/xdr.c:317-321 | Behind a presence word that says "present", a pointer is a reference. |
| XdrComposites.XdrFree | gps/libloc/librpc/rpc.c:151-156 | Releases what FREE releases and leaves the heap FREE leaves, on a handle of its own. |
| XdrComposites.PendingStep | gps/libloc/librpc/xdr.c:203-220 | One element further, what is done followed by what is still to do is the same whole. |
| RpcHeaders.ReplyRoundTrip | gps/libloc/librpc/clnt.c:562-676 | For every accepted or denied header, the receiver reads back its meaning and stops where the sender stopped, and refuses it exactly if the verifier is not empty. |
| RpcHeaders.ReadHeadersAreKnown | gps/libloc/librpc/clnt.c:591-676 | On any input a header is read only with a known status and an empty verifier, and inside the message. |
| RpcHeaders.VerifierBodyIsRefused | gps/libloc/librpc/clnt.c:579-586 | A reply whose verifier has a body is refused whatever its status. |
| RpcHeaders.SendReplyHeader | gps/libloc/librpc/rpc.c:102-123 | Sends the stated bytes of any header; an unknown status fails after what was sent. |
| RpcHeaders.SendAcceptedReplyHeader | gps/libloc/librpc/rpc.c:42-75 | Verifier, status, and the two versions of a program mismatch. |
| RpcHeaders.SendDeniedReply | gps/libloc/librpc/rpc.c:77-100 | Status, and the two versions or the reason. |
| RpcHeaders.SendAuth | gps/libloc/librpc/rpc.c:127-149 | Flavour, length and body; an empty body sends no bytes. |
| RpcHeaders.RecvAuth | gps/libloc/librpc/clnt.c:562-589 | Accepts exactly the empty bodies. |
| RpcHeaders.RecvReplyHeader | gps/libloc/librpc/clnt.c:654-676 | Reads the header the input holds at the cursor, or fails exactly when there is none. |
| RpcHeaders.RecvAcceptedReplyHeader | gps/libloc/librpc/clnt.c:591-628 | The accepted part of it. |
| RpcHeaders.RecvDeniedReply | gps/libloc/librpc/clnt.c:630-652 | The denied part of it. |
| RpcHeaders.CallMsgStart | gps/libloc/librpc/rpc.c:7-27 | Sets program and procedure, takes the next transaction id and sends the six words and both credentials as far as they fit. |
| RpcHeaders.CallHeaderIsSent | gps/libloc/librpc/svc.c:461-468 | Without credentials the header is ten words and always fits, so that arguments start where the server expects them. |
| RpcHeaders.ReplyMsgStart | gps/libloc/librpc/rpc.c:29-40 | For every verifier, the bytes are those of starting a reply and sending the header "accepted, success". |
| RpcHeaders.ReplyHeadIsSuccessHeader | gps/libloc/librpc/rpc.c:29-40 | Without a verifier these are six words that always fit. |
| RpcHeaders.NoAuthIsTwoZeros | gps/libloc/librpc/rpc.c:127-149 | The empty credentials are two zero words. |
| RpcHeaders.CallHeaderBytes | gps/libloc/librpc/rpc.c:7-27 | The header of a call is 40 bytes: id, type 0, version 2, program, version, procedure and four zero words, literally. |
| RpcHeaders.ReplyHeadBytes | gps/libloc/librpc/rpc.c:29-40 | The head of a successful reply is the id, type 1 and four zero words, literally. |
| RpcHeaders.HeaderBytes | gps/libloc/librpc/rpc.c:42-123 | The literal bytes of every accepted and denied header without verifier; one is sent exactly for the statuses 0 to 6 and 0 to 1. |
| RpcHeaders.HeaderRead | gps/libloc/librpc/clnt.c:591-676 | Which header the receiver reads, or that it reads none, for all values of the words, in numbers. |
| RpcCall.RemoteCall | gps/libloc/librpc/clnt.c:443-560 | End to end, over a transport that copies bytes and with any allocators: a client gets RPC_SUCCESS and exactly the value the service computes from the value of its arguments, if the server is the one called and has the procedure and a result, both messages fit and no allocation fails; an encoding error with nothing sent if the arguments do not fit; the outcome of an error reply if the procedure is missing, the results do not fit or the server lacks memory; a decoding error if the client lacks memory; no reply otherwise. The server releases every block it allocated unless it lacked memory, the results own exactly what the client allocated, and another call may follow. |
| RpcCall.CallStatuses | gps/libloc/librpc/clnt.c:443-560 | What any call comes to in numbers, from the sizes of the two messages in the standard's format: 1 if 40 bytes and the arguments do not fit, no reply from another server or without a result, 0 with the value computed if 24 bytes and the results fit, 12 if they do not, 10 for a missing procedure; 11 and 2 only if an allocation of the server or of the client fails. The reasons 10, 11 and 12 are 4 unless the transaction id is 0. |
| RpcCall.CallBytes | gps/libloc/librpc/clnt.c:443-471 | The whole message of a call: which literal bytes, and that it is sent exactly if the arguments obey their limits and fit. |
| RpcCall.ResultsReplyBytes | gps/libloc/librpc/svc.c:546-572 | The whole message of a reply: literal head and the standard's bytes of the results if these obey their limits and fit, and the literal system error, status 5, otherwise. |
| RpcCall.ErrorReplyBytes | gps/libloc/librpc/svc.c:574-624 | The 24 bytes of an error reply, literally. |
| RpcCall.ServedReplies | gps/libloc/libloc_api-rpc/gen-50000/loc_api_cb_svc.c:32-59 | A dispatch function replies with status 3 exactly for an unknown procedure, 4 for arguments it cannot decode and 5 for results that do not fit, as literal bytes. |
| RpcCall.HeadStatuses | gps/libloc/librpc/clnt.c:502-534 | Which status the client returns for which words of a reply, in numbers: 4 for another id or an unreadable header, 7 plus an accepted status, 6 plus a denied one. |
| RpcCall.WithMemoryResultsArrive | gps/libloc/librpc/clnt.c:443-560 | If no allocation fails, the results of a procedure that has some arrive if and only if both messages fit. |
| RpcCall.CallKeepsSound | gps/libloc/librpc/clnt.c:443-560 | No call releases a block of the server twice, so another may follow. |
| RpcCall.Exchange | gps/libloc/librpc/svc.c:423-476 | The server replies exactly if program and version match and there is a result or an error: with the results behind the caller's transaction id, or with an error under its own. Arguments that were sent can only fail to be decoded if an allocation fails. |
| RpcCall.Server.Dispatch | gps/libloc/librpc/svc.c:423-476 | A message that is no call, or for another program or version, changes nothing; otherwise the arguments are decoded from word ten on and the call is served. |
| RpcCall.Server.GetArgs | gps/libloc/librpc/svc.c:524-533 | Decodes only while a call is being dispatched, and fails otherwise. |
| RpcCall.Server.FreeArgs | gps/libloc/librpc/svc.c:535-543 | Releases what FREE releases, whatever mode the handle was in; fails and changes nothing on an inactive server. |
| RpcCall.Server.SendReply | gps/libloc/librpc/svc.c:546-572 | The message is the caller's transaction id, the 20 literal bytes of a successful reply (type 1, then accepted, no verifier, success) and the results; fails and changes nothing on an inactive server. |
| RpcCall.Server.EncodeReply | gps/libloc/librpc/svc.c:556-560 | Reply head and results, under the server's own transaction id 0, or failure exactly when they do not fit; the 24 bytes of the head are given literally. |
| RpcCall.Server.SvcErr | gps/libloc/librpc/svc.c:574-624 | The error reply is 24 literal bytes: transaction id 0, which no reply moves, type 1, accepted, no verifier, and the status; nothing happens on an inactive server. |
| RpcCall.Server.Serve | gps/libloc/libloc_api-rpc/gen-50000/loc_api_cb_svc.c:32-59 | An unknown procedure and arguments that cannot be decoded are reported; otherwise the call is served and exactly the blocks of the arguments are released. Of arguments that cannot be decoded every block allocated stays, because they are not released. |
| RpcCall.BlocksStayIff | gps/libloc/libloc_api-rpc/gen-50000/loc_api_cb_svc.c:47-51 | Blocks allocated while serving a call stay for ever if and only if the arguments of a known procedure cannot be decoded and a block had been allocated before that was noticed. |
| RpcCall.CutStringKeepsItsBlock | gps/libloc/librpc/xdr.c:510-519 | One such message: 44 bytes, whose argument claims to be a string of 5. |
| RpcCall.Server.ServeDecoded | gps/libloc/libloc_api-rpc/gen-50000/loc_api_cb_svc.c:52-59 | The reply goes out first, and then the arguments are released as FREE releases them. |
| RpcCall.Server.ReplyWith | gps/libloc/libloc_api-rpc/gen-50000/loc_api_cb_svc.c:52-55 | No reply for a result of 0 or less; results that do not fit are replaced by a system error. |
| RpcCall.ClntSend | gps/libloc/librpc/clnt.c:443-471 | Takes the next transaction id and leaves header and arguments in the buffer, or fails exactly when they do not fit; message type, version and the two empty credentials are given as literal bytes. |
| RpcCall.ClntReceive | gps/libloc/librpc/clnt.c:500-543 | Checks transaction id, header and status in this order and decodes the results only of a successful reply. |
| RpcCall.ReceiveHead | gps/libloc/librpc/clnt.c:502-534 | Transaction id, header and status, tested in this order; either all is well and the cursor is at the results, or the status to return is known. |
| RpcCall.AwaitReply | gps/libloc/librpc/clnt.c:473-543 | From a message that is ready: what the call comes to, in every case. |
| RpcCall.TakeReply | gps/libloc/librpc/clnt.c:500-543 | A reply is received as the value the server sent, or as the outcome of its error. |
| RpcCall.SuccessReplyReceived | gps/libloc/librpc/clnt.c:502-543 | A reply carrying the caller's transaction id passes every check and gives the value sent, or cannot be decoded, and that only if an allocation fails; what is received owns what was allocated. |
| RpcCall.ErrorReplyReceived | gps/libloc/librpc/svc.c:576-624 | An error reply goes out under the server's own transaction id, which is always 0; so every error reaches the caller with its reason exactly if the caller's id is 0, and as RPC_CANTRECV otherwise. |
| RpcCall.CallHeaderWords | gps/libloc/librpc/svc.c:404-448 | The words the server looks at are those the client sent. |
| ClientThreads.HandOver | gps/libloc/librpc/clnt.c:346-407 | In every interleaving of calls, replies and callbacks, including calls made by dispatch functions, with spurious wake-ups of the receive and callback threads: no unconsumed message is overwritten, no reply is signalled before its caller waits, and messages are taken in order, at most once, by the thread they are for. |
| ClientThreads.CallIsAnswered | gps/libloc/librpc/clnt.c:473-560 | Whenever all is quiet, some run makes a call, answers it and returns from it, with its own reply taken and all quiet again. |
| ClientThreads.AnyNumberOfCalls | gps/libloc/librpc/clnt.c:443-560 | So for any number there is a run with that many calls, one after the other, each answered by its own reply. |
| ClientThreads.NeverBlocked | gps/libloc/librpc/clnt.c:122-211 | Remote calls, replies to the outstanding call, new callers and spurious wake-ups of the two loops are always possible where they make sense. |
| ClientThreads.ThreadsCanMoveIff | gps/libloc/librpc/clnt.c:122-211 | While a message is unread or unconsumed, some thread can move by itself if and only if one state does not hold: the callback thread calls through its own client, or wants to, the caller waits, and the receive thread waits for the callback lock with one more call. So no wake-up is lost. |
| ClientThreads.NoDeadlockWithoutNestedCalls | gps/libloc/librpc/clnt.c:192-201 | That state is never reached as long as no dispatch function calls through its own client. |
| ClientThreads.DeadlockLasts | gps/libloc/librpc/clnt.c:388-408 | It is a deadlock: nothing is read or taken any more in any continuation. |
| ClientThreads.DeadlockIsReachable | gps/libloc/librpc/clnt.c:142-201 | From every reachable state whose callback thread is in a dispatch function some run leads to that deadlock. |
| ClientThreads.DispatchIsReachable | gps/libloc/librpc/clnt.c:122-201 | And such states are reached. |
| ClientThreads.BufferKept | gps/libloc/librpc/clnt.c:346-370 | Every step keeps the input buffer busy from the read of a message until its taker gives it back. |
| ClientThreads.RepliesKept | gps/libloc/librpc/clnt.c:473-494 | Every step keeps the outstanding reply in exactly one place. |
| ClientThreads.HistoryKept | gps/libloc/librpc/clnt.c:548-556 | Every step keeps arrivals equal to what was taken, what is in the buffer and what is unread, in order. |
| ClientThreads.InvHolds | gps/libloc/librpc/clnt.c:421-560 | So every run does. |
| ClientThreads.SpuriousCallerWakeBreaksHandOver | gps/libloc/librpc/clnt.c:492-510 | From every reachable state with a waiting caller, a wake-up without a signal, on which the caller does not wait again, can make a caller take a message that is not for it; without such wake-ups none ever does. The caller finds another transaction id in it, and its call fails. |
| ClientThreads.BufferedReplyHolds | gps/libloc/librpc/clnt.c:369-386 | In every run a reply in the buffer is of a call made, and the current one is unconsumed until its caller is signalled. |
| ClientThreads.NextCallTakesStaleReply | gps/libloc/librpc/clnt.c:492-510 | A reply taken before its signal came is taken once more by the next caller. |
| ServerRegistry.RegistryIsAMap | gps/libloc/librpc/svc.c:208-402 | Every run of registrations and removals answers as a map from program and version does: unique keys, the same lookups, both counters exact, the fd set exactly the descriptors of the real servers, all at most the bound. |
| ServerRegistry.RequestAgrees | gps/libloc/librpc/svc.c:232-402 | Each request answers as the map and keeps all of this. |
| ServerRegistry.FindIsLookup | gps/libloc/librpc/svc.c:208-221 | The list walk finds an entry exactly if the map has the key, and the map's entry. |
| ServerRegistry.CallbackBit | gps/libloc/librpc/svc.c:253-261 | Callback clients are the programs with bit 24. |
| ServerRegistry.ReRegistering | gps/libloc/librpc/svc.c:243-249 | Registering a key again changes nothing and tells whether the dispatch function is the same. |
| ServerRegistry.RegisterThenUnregister | gps/libloc/librpc/svc.c:344-402 | Removing a key just added gives back everything but the descriptor bound and the threads created. |
| ServerRegistry.InsertAgrees | gps/libloc/librpc/svc.c:292-304 | Adding an entry keeps list, counters, fd set and bound in line with the map. |
| ServerRegistry.UnregisterAgrees | gps/libloc/librpc/svc.c:344-400 | So does removing one, or a key that is not there. |
| ServerRegistry.WhenAThreadIsCreated | gps/libloc/librpc/svc.c:243-315 | A registration creates a service thread, and one only, exactly for a new key that is a callback client beside exactly one real server, or the first real server with a descriptor opened and registered. |
| ServerRegistry.CallbackClientDoublesTheThread | gps/libloc/librpc/svc.c:301-315 | One real server and then a callback client: two threads. |
| ServerRegistry.Transport.FindNosync | gps/libloc/librpc/svc.c:208-221 | The entry at the first match and the one before it, or NULL. |
| ServerRegistry.Transport.Add | gps/libloc/librpc/svc.c:232-318 | The whole new registry, for every answer of the driver; no old entry is touched. |
| ServerRegistry.Transport.Delete | gps/libloc/librpc/svc.c:344-402 | The whole new registry, with the entry unlinked at the head or behind its predecessor. |
| LinkedList.Add | gps/utils/linked_list.c:110-155 | The item goes to the head and the order of the others stays, or an error changes nothing; both chains of links stay consistent. |
| LinkedList.Remove | gps/utils/linked_list.c:162-204 | The item at the tail leaves and is returned, or an error, also for a NULL result variable, changes nothing. |
| LinkedList.Empty | gps/utils/linked_list.c:211-223 | Says whether there is no item; a NULL handle counts as empty. |
| LinkedList.Flush | gps/utils/linked_list.c:230-260 | The list is empty afterwards, and the dealloc functions given were called once each, from head to tail. |
| LinkedList.DeallocsStep | gps/utils/linked_list.c:230-260 | An item adds its data to the calls, in front, exactly if it has a dealloc function. |
| LinkedList.Search | gps/utils/linked_list.c:267-327 | The first match from the head is reported, and removed if asked, at the head, the tail or in between; the dealloc function runs only on data removed and not handed out; an empty list and a NULL comparison leave everything alone, the result variable included. |
| LinkedList.Unlink | gps/utils/linked_list.c:286-318 | Takes out exactly one element and leaves it with no links. |
| LinkedList.FirstMatch | gps/utils/linked_list.c:280-320 | The offset of the first item accepted: none before it is. |
| LinkedList.FirstMatchAt | gps/utils/linked_list.c:280-320 | And it is the only such offset. |
| LinkedList.AddedLeaveInOrder | gps/utils/linked_list.c:110-204 | First in, first out: items added one after the other are at the tail in that order. |
| MessageQueue.NoLostWakeUp | gps/utils/msg_q.c:185-250 | In every interleaving, with spurious wake-ups, flushes and late receivers: while a receiver sleeps there are at most as many messages as woken receivers still to run, and once unblocked nobody sleeps. |
| MessageQueue.SentIsLeftOrQueued | gps/utils/msg_q.c:171-322 | Over every run the messages sent are, in order and position by position, those still queued and those that were received or flushed; what receivers were handed is exactly the data of the received ones, each to its own receiver, and dealloc was called for the flushed ones, once each. |
| MessageQueue.UnblockedIsFinal | gps/utils/msg_q.c:190-195 | After the queue is unblocked no send succeeds and nobody is ever asleep. |
| MessageQueue.WakeKept | gps/utils/msg_q.c:185-317 | Each step keeps the bound on sleeping receivers. |
| MessageQueue.ThreadsKept | gps/utils/msg_q.c:185-317 | No step forgets a thread: one joins the sleeping and woken only by arriving at an empty queue, and leaves only by returning. |
| MessageQueue.WhoIsWoken | gps/utils/msg_q.c:197-317 | A send that succeeds wakes somebody if anybody sleeps, unblocking wakes all, and nothing else closes the queue. |
| MessageQueue.WhatCanHappen | gps/utils/msg_q.c:171-322 | Threads may arrive, go on and wake without cause at any time, and any sleeping one may be the one a send wakes. |
| MessageQueue.FlowKept | gps/utils/msg_q.c:185-285 | Each step keeps conservation and order. |
| MessageQueue.FlushedDeallocs | gps/utils/msg_q.c:262-285 | A flush adds exactly the dealloc calls its messages have. |
| MessageQueue.MsgQ.Snd | gps/utils/msg_q.c:171-207 | Succeeds exactly for data that is not NULL, on a queue that is not unblocked, with memory, and then the item is at the head; the error otherwise; and whether a waiter is signalled, which it is even if the allocation failed. |
| MessageQueue.MsgQ.Rcv | gps/utils/msg_q.c:214-255 | One pass from the lock to the wait or the return: success hands over the data of the last item of the list, which leaves it; otherwise the list stays, and the pass sleeps exactly if it is empty and the queue not unblocked. |
| MessageQueue.MsgQ.FlushQueue | gps/utils/msg_q.c:262-285 | The queue is empty, the flag stays, and the dealloc calls are those of the list. |
| MessageQueue.MsgQ.Unblock | gps/utils/msg_q.c:292-322 | Sets the flag and wakes all the first time, and reports an error afterwards. |
| EngineStatus.ListenerAgrees | gps/libloc/libloc_api/loc_eng.cpp:1210-1277 | In every run after an initialisation that did not inherit an open session: folding the notifications gives the engine's own two statuses, a begun session or a muted one means the engine is on, engine off means session end, and no session begin is repeated. |
| EngineStatus.AgreementNeedsClosedSession | gps/libloc/libloc_api/loc_eng.cpp:815-836 | Every run agrees if and only if there is a status callback and the last notification before initialisation was no session begin, because the last status is static. |
| EngineStatus.StatusesAreTied | gps/libloc/libloc_api/loc_eng.cpp:1210-1277 | With or without a callback, begun sessions and muted ones mean the engine is on, and engine off means session end, in every run. |
| EngineStatus.OpenSessionIsInherited | gps/libloc/libloc_api/loc_eng.cpp:220-249 | A re-initialisation inherits a session begin if and only if the session is open and the engine is not navigating, or its stop is deferred or fails. |
| EngineStatus.BeginOpensSession | gps/libloc/libloc_api/loc_eng.cpp:1235-1240 | One report of a begun session opens it, from any state. |
| EngineStatus.MuteEndsWithTheEngine | gps/libloc/libloc_api/loc_eng.cpp:1258-1276 | A muted session stays muted or ends, and ends with the engine. |
| EngineStatus.WaitingMuteIsTaken | gps/libloc/libloc_api/loc_eng.cpp:1258-1265 | A waiting mute is taken by the next "engine on" or "session begin", in every run in which the engine does not go off first. |
| EngineStatus.MuteFollowsTheEngine | gps/libloc/libloc_api/loc_eng.cpp:1258-1276 | What a report makes of each of the three mute states. |
| EngineStatus.ReportsDo | gps/libloc/libloc_api/loc_eng.cpp:1210-1256 | For each kind of report, both statuses it leaves and the exact notifications it brings. |
| EngineStatus.StopDoes | gps/libloc/libloc_api/loc_eng.cpp:456-468 | A stop that goes through ends the session and notifies that, unless the engine is off or there is none to end. |
| EngineStatus.StepKeepsConsistent | gps/libloc/libloc_api/loc_eng.cpp:1210-1277 | Each report, stop and mute request keeps the agreement. |
| EngineStatus.ReportKeepsConsistent | gps/libloc/libloc_api/loc_eng.cpp:1246-1256 | So does each status report, of every kind. |
| EngineStatus.OneNotice | gps/libloc/libloc_api/loc_eng.cpp:1246-1256 | A report brings at most one notification: nothing, the engine status, or a session begin that implies engine on. |
| EngineStatus.StopKeepsConsistent | gps/libloc/libloc_api/loc_eng.cpp:456-468 | So does a stop, deferred, failed or done. |
| EngineStatus.Engine.ReportStatus | gps/libloc/libloc_api/loc_eng.cpp:1210-1277 | The whole new state and the notifications made. |
| EngineStatus.Engine.InformGpsStatus | gps/libloc/libloc_api/loc_eng.cpp:815-836 | One notification if there is a callback, and a session begin after it if the last one was a session begin and this is engine on; the last status moves in any case. |
| EngineStatus.Engine.Stop | gps/libloc/libloc_api/loc_eng.cpp:433-471 | A stop is deferred while AGPS is pending; otherwise, if accepted, the session ends, with a notification unless the engine is off. |
| EngineStatus.Engine.MuteOneSession | gps/libloc/libloc_api/loc_eng.cpp:489-498 | The next session is to be muted, from any state. |
| EngineStatus.Engine.Reinitialise | gps/libloc/libloc_api/loc_eng.cpp:220-249 | A navigating engine is stopped first, as a stop does it; then everything is reset but the last status notified. |
| EngineStatus.Engine.Start | gps/libloc/libloc_api/loc_eng.cpp:397-415 | The engine navigates if the modem accepts the start. |
| NetworkInitiated.AnsweredOnceInOrder | gps/libloc/libloc_api/loc_eng_ni.cpp:300-349 | In every interleaving of requests, responses and timeouts: requests are answered once each, in order, with their own saved request; none is accepted while one is unanswered; the modem is told "accept" only for a user who accepted, "deny" only for one who denied, "no response" only after a timeout or for a user who gave none; no response supplies two answers. |
| NetworkInitiated.AttributedExactlyWhenInTime | gps/libloc/libloc_api/loc_eng_ni.cpp:734-746 | From any reachable state, a response that passed both tests is never used for another request, in any continuation, if and only if its own request is still waiting when it commits. |
| NetworkInitiated.ResponsesPassIff | gps/libloc/libloc_api/loc_eng_ni.cpp:734-746 | A response goes on exactly if its number is the current one and, at the second test, a request is in progress; neither test changes anything else. |
| NetworkInitiated.WhatMayCome | gps/libloc/libloc_api/loc_eng_ni.cpp:300-746 | Requests and responses may come at any time, and a waiting thread may run or time out at any time. |
| NetworkInitiated.AResponseCanBeLate | gps/libloc/libloc_api/loc_eng_ni.cpp:641-681 | A state in which this fails is reachable: the answer times out between the tests and the commit. |
| NetworkInitiated.StepKeepsInv | gps/libloc/libloc_api/loc_eng_ni.cpp:300-681 | Each step keeps one unanswered request at most, with its request saved and its answers faithful. |
| NetworkInitiated.StepKeepsSafe | gps/libloc/libloc_api/loc_eng_ni.cpp:657-673 | Each step keeps a response for its own request or used up. |
| NetworkInitiated.MisuseMisattributes | gps/libloc/libloc_api/loc_eng_ni.cpp:657-681 | From every state with a late response there is a run that uses it for another request. |
| NetworkInitiated.NiData.RequestHandler | gps/libloc/libloc_api/loc_eng_ni.cpp:310-327 | A request is saved with a new number exactly if none is in progress; the response and its flag stay. |
| NetworkInitiated.NiData.ProcessUserResponse | gps/libloc/libloc_api/loc_eng_ni.cpp:562-589 | Accept, deny and no response are each stored as such and flagged; any other response changes nothing and gives -1. |
| NetworkInitiated.NiData.ThreadPass | gps/libloc/libloc_api/loc_eng_ni.cpp:657-673 | Sleeps, or answers the saved request with the response, or with "no response" after a timeout, and clears the flag. |
| NetworkInitiated.NiData.ClearSession | gps/libloc/libloc_api/loc_eng_ni.cpp:675-679 | Ends the request and leaves the response flag as it is. |
| XtraInjection.DeliveredInFull | gps/libloc/libloc_api/loc_eng_xtra.cpp:123-186 | For every length up to 65536, parts accepted by the modem make up exactly the data; they are numbered from 1, carry its size and their number, and all but the last have 1024 bytes. |
| XtraInjection.LimitIsExact | gps/libloc/libloc_api/loc_eng_xtra.cpp:139-144 | All data of a length arrives unchanged whenever it is delivered, if and only if the length is at most 65536 or too long to be delivered at all. |
| XtraInjection.DeliveredAreAll | gps/libloc/libloc_api/loc_eng_xtra.cpp:135-183 | A delivered attempt consists of exactly the requests the length calls for. |
| XtraInjection.LimitOfRequests | gps/libloc/libloc_api/loc_eng_xtra.cpp:139-144 | The same limit for the requests as such. |
| XtraInjection.NeverEndsBeyond255Parts | gps/libloc/libloc_api/loc_eng_xtra.cpp:135-183 | With a modem that accepts everything an injection ends if and only if it has at most 255 parts. |
| XtraInjection.RetrySucceedsIff | gps/libloc/libloc_api/loc_eng_xtra.cpp:187-196 | The wrapper succeeds if and only if, within 255 parts, one of its attempts had every part accepted. |
| XtraInjection.RetrySucceedsOnAnswersIff | gps/libloc/libloc_api/loc_eng_xtra.cpp:187-196 | In terms of the modem's answers alone: the wrapper succeeds if and only if, within 255 parts, as many parts in a row as the data has are accepted from the beginning or from straight after the first or the second refusal. |
| XtraInjection.AttemptsFollowRefusals | gps/libloc/libloc_api/loc_eng_xtra.cpp:187-196 | Each attempt starts where the refusal that ended the one before it leaves off. |
| XtraInjection.InjectOne | gps/libloc/libloc_api/loc_eng_xtra.cpp:111-186 | The requests sent, with their wrapping part number, 8-bit total and wrapping offset, and how the attempt ends, for every script of modem answers. |
| XtraInjection.RequestsAre | gps/libloc/libloc_api/loc_eng_xtra.cpp:123-159 | Every request of every injection in full, by its position k alone: the size of the data, the number of parts modulo 256, part k + 1 modulo 256, and the bytes from 1024 k modulo 65536 on. |
| XtraInjection.Wrapped | gps/libloc/libloc_api/loc_eng_xtra.cpp:147-183 | The 8-bit part counter and the 16-bit offset in closed form. |
| XtraInjection.Inject | gps/libloc/libloc_api/loc_eng_xtra.cpp:187-196 | At most three attempts one after the other, all but the last failed; failure means that three failed. |
| XtraInjection.FullParts | gps/libloc/libloc_api/loc_eng_xtra.cpp:135-183 | Up to the wrap of the offset, full parts bring the data as it is. |
| SampleRate.EarlyExitFindsNearest | audio/AudioHardware.cpp:2051-2063 | For every strictly increasing table of rates below 2^31 the rate chosen is the nearest, ties going to the higher, if and only if the request is at most 2^31 plus half the sum of the two lowest rates; rates of the table are fixed points. |
| SampleRate.HardwareRates | audio/AudioHardware.cpp:70-72 | With the hardware's table the limit is 2147493160, and above it the lowest rate is chosen. |
| SampleRate.SupportedRatesAreKept | audio/AudioHardware.cpp:70-72 | The rate chosen is one of the nine of the hardware, and each of these is chosen if asked for. |
| SampleRate.GetInputSampleRate | audio/AudioHardware.cpp:2051-2063 | The rate before the first one whose distance grows, for any table. |
| SampleRate.Stop | audio/AudioHardware.cpp:2057-2060 | Distances do not grow before the stop and do grow there. |
| DeviceMask.ConvertAudioDevice | audio/audio_hw_hal.cpp:98-122 | The loop ends and gives the union of the images of the single devices. |
| DeviceMask.DistributesOverUnion | audio/audio_hw_hal.cpp:104-120 | Masks of one direction are translated device by device. |
| DeviceMask.ThereAndBack | audio/audio_hw_hal.cpp:98-122 | For every table of single devices, each of 2.0 once: from 2.0 to 1.0 and back, each listed device of any mask comes back as the 2.0 device of the first row with the same 1.0 device, and nothing else comes back. |
| DeviceMask.OneDeviceConverts | audio/audio_hw_hal.cpp:98-122 | In each direction a mask of one listed device becomes that device's other mask, from 1.0 that of the first row with it. |
| DeviceMask.BitsOfMasks | audio/audio_hw_hal.cpp:98-108 | Only bit 31 of a 2.0 mask is not a device; 1.0 masks have none. |
| DeviceMask.SurvivesIff | audio/audio_hw_hal.cpp:98-122 | If rows that share a 1.0 device share a direction, a mask survives if and only if each of its devices is listed in the first row with its 1.0 device, and it is not the empty input mask. |
| DeviceMask.DefaultsAreLost | audio/audio_hw_hal.cpp:61-96 | On the hardware's table a mask of listed devices survives if and only if it has neither default device: these come back as the speaker and the built-in microphone, whose 1.0 values they share. |
| DeviceMask.SharedDeviceIsLost | audio/audio_hw_hal.cpp:98-122 | The smallest such table: two rows for one 1.0 device, the second of which comes back as the first. |
| DeviceMask.FindImage | audio/audio_hw_hal.cpp:113-118 | The first row that matches, or nothing. |
| DeviceMask.OneDeviceLess | audio/audio_hw_hal.cpp:109-120 | Taking one device out of a mask takes its image out of the union. |
| AacFrames.Read | audio/AudioHardware.cpp:3410-3461 | The buffer starts with the tag, holds the packed chunks and is otherwise untouched; up to 65543 bytes of it, a reader gets from it the driver's reads, none skipped, in order, each cut to the room left, at most one on a first read, and otherwise up to an empty read, the end of the data or the lack of room. |
| AacFrames.ReaderRecoversChunks | audio/AudioHardware.cpp:3410-3461 | A reader recovers exactly the chunks delivered, whatever the driver delivers, if and only if the buffer is at most 65543 bytes. |
| AacFrames.ReadsAreRecovered | audio/AudioHardware.cpp:3410-3461 | What a reader recovers are the driver's reads: frame by frame the i-th read cut to the room the frames before leave, with the exact reasons for stopping. |
| AacFrames.ChunksAreReads | audio/AudioHardware.cpp:3421-3449 | The same of the chunks packed. |
| AacFrames.FrameIsAt | audio/AudioHardware.cpp:3410-3439 | Which bytes hold what: tag, frame count, and each frame behind its size, both numbers least significant byte first. |
| AacFrames.ParseOfPacked | audio/AudioHardware.cpp:3412-3439 | Parsing inverts packing, with anything behind it, for chunks and counts below 65536. |
| AacFrames.ChunksFit | audio/AudioHardware.cpp:3421-3437 | No chunk is empty, each leaves room for its size, and three times their number fits the room. |
| AacFrames.AddFrame | audio/AudioHardware.cpp:3430-3439 | Data, size and count written in this order extend the packed chunks by one. |
| AacFrames.LongFrameIsLost | audio/AudioHardware.cpp:3436-3439 | A frame of 65536 bytes is stored with size zero. |
| Strategy.WithinBounds | audio/AudioPolicyManager.cpp:254-476 | Every strategy, given a cache within bounds, selects among the available devices and the default. |
| Strategy.PhoneIsOneDevice | audio/AudioPolicyManager.cpp:295-366 | The phone strategy selects at most one device. |
| Strategy.PhonePriorities | audio/AudioPolicyManager.cpp:295-366 | The whole order in which the phone strategy looks for a device, with the speaker or a SCO device forced or not, in and out of a call, and the default at its end. |
| Strategy.MediaPriorities | audio/AudioPolicyManager.cpp:399-456 | The whole order of the media strategy, the forced speaker, and FM besides. |
| Strategy.OffCallRouting | audio/AudioPolicyManager.cpp:266-293 | Out of a call, tones go where media goes, and respectful alerts do if music plays, not remotely, and where other alerts go otherwise. |
| Strategy.EnforcedAudibleRouting | audio/AudioPolicyManager.cpp:378-470 | Enforced audible sounds go where media goes and, if they cannot be muted, to the speaker; in a telephony call those that can be muted go where the phone does, unless the device is A2DP. |
| Strategy.CachedAndAnalogRouting | audio/AudioPolicyManager.cpp:254-397 | What is cached is returned as it is; with analog FM alerts have the speaker at most. |
| Strategy.InCallFollowsPhone | audio/AudioPolicyManager.cpp:266-304 | In a call both sonification strategies select as the phone does, and DTMF as the phone with the SCO car kit not available. |
| Strategy.AlertsAddTheSpeaker | audio/AudioPolicyManager.cpp:384-440 | Out of a call and without analog FM, sonification selects the speaker and what media selects. |
| Strategy.MediaHasNoDefault | audio/AudioPolicyManager.cpp:399-445 | Media never selects the default device, with the speaker forced or not: the fall-through overwrites it, and nothing is selected exactly if no device considered in the case is available. |
| Strategy.FirstIsFirst | audio/AudioPolicyManager.cpp:299-334 | The device selected from an order is the first one available. |

## Left out

XDR and RPC:

- Decoding into storage whose pointers are not NULL already; every decode here starts from
  storage without blocks of its own.
- Objects are ownership trees, so two pointers to one block are not modelled, and an element is
  updated as part of its object.
- Sizes in bytes of arrays' and references' blocks. Decoding an array assumes that its block holds
  the elements; when it does is `XdrSpec.BlockHoldsElementsIff`.
- XdrLaws.RoundTrip: allocation does not fail, and likewise in the rows that follow from it;
  `XdrFailures.RoundTripUnlessFailing` has any allocator.
- XdrStream.Xdr.SendBytes: cursor and length do not add up to 2^32, exactly where the code's test is
  right (`XdrStream.SendTestIsRightIff`).
- XdrStream.Xdr.RecvBytes: cursor and length add up to less than 2^31, where the code's test is
  right (`XdrStream.ReceiveTestIsRightIff`). For the routines this follows, whatever their limits:
  no block of memory is long enough to reach it, and the allocator refuses such blocks.
- XdrComposites.XdrArray: block sizes in bytes, as above.
- `RPC_OFFSET`, which no file of the repository defines, is taken as 0.
- `xdr_char`, `xdr_long`, `xdr_u_long`, `xdr_enum`, the quad aliases and the 8- and 16-bit
  senders, which only delegate; `long` is 32 bits, as the casts assume.
- Structure routines are pairs of member routines, the shape that rpcgen produces; unions are not
  modelled.
- XdrStream.Xdr.Read: the failure mark of a short message is a length of 0 instead of -1, which
  every receive refuses alike.
- RpcCall.Server.Serve: the null procedure is a procedure with void arguments and results, and a
  result object owns no blocks of the server, so that releasing it afterwards releases nothing.
- RpcCall.RemoteCall: the transport copies bytes; resets and send
  failures, for which the code marks the input buffer free whoever owns it, do not happen.
- ClientThreads.HandOver: every incoming call finds its server; the remote side replies only to the
  outstanding call; other clients of the same receive thread, resets, `clnt_create` and
  `clnt_destroy` are left out.
- ServerRegistry.RegistryIsAMap: descriptors are fresh, and no callback dispatch is under way that
  has lent its XDR to an entry; the loop over ready descriptors and the transport's reference
  count are left out, as are the limits of an `fd_set`.

Lists and queues:

- `linked_list_destroy` and `msg_q_destroy`, and the NULL handles and result pointers of the
  queue's functions, which return before any lock is taken.

GPS:

- EngineStatus.ListenerAgrees: reports, stops and mute requests are atomic steps; the code guards
  the mute state with a lock but not the two statuses.
- The deferred stop sent after a data call, which changes no status, and the delivery of position
  reports through their single slot.
- NetworkInitiated.NiData.RequestHandler: only the three known kinds of request reach it, thread
  creation succeeds, and there is one callback thread; the notification's texts are left out.
- XtraInjection.InjectOne: the negative lengths of the C signature; the waits and timeouts behind an
  answer of the modem.

Audio:

- AacFrames.Read: starting the stream and read errors, among them the interrupted reads that
  leave a hole of two bytes; the PCM path copies without framing; a buffer is as long as the size
  passed, at least the six bytes of the header.
- `DeviceMask` takes any table whose rows are single devices, each of 2.0 once. The 2.0 values are
  not part of the repository; the 1.0 column of `DeviceMask.DefaultsAreLost` is that of
  `include/legacy/hardware_legacy/AudioSystemLegacy.h` in builds with `QCOM_HARDWARE` and
  `QCOM_FM_ENABLED`.
- `Strategy` has the FM output of builds with `QCOM_FM_ENABLED`; in others it is never available. It
  takes the phone state, forced uses and stream activity as fields; which outputs are
  opened and muted in consequence is left out.
- `AudioHardware_cad.cpp` repeats the rate search and the framing loop.
- Volume, filter files, camera, lights, power, Wi-Fi and radio code: tables and calls into the
  device.
