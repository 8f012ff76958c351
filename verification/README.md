# A verified model of the network stack's two protocols

The repository holds two protocol stacks on one buffered byte-stream layer: a ticket protocol
(remote calls in length-prefixed JSON frames) and an FTP client. This project models both in
Dafny and proves what they promise, up to two end-to-end statements:

- a remote `send` returns what calling the worker's handler in place returns, for every
  interleaving of the two processes and every chunking of the bytes;
- any run of FTP operations on absolute paths, or on relative ones, in which each succeeds or
  is refused in a directory that may be entered, ends with no unread reply, with the server in
  the directory the navigator remembers, and with a server tree changed exactly as the
  outcomes of the operations say.

`dafny verify dfyconfig.toml` checks everything.

## Structure

| file | models |
|---|---|
| Wrappers, Sequences, Decimals | results, searching and joining sequences, decimal printing |
| Sockets | a socket with its read buffer over two FIFO channels; `readSome`, `readExact`, `readUntil` |
| Frames | the 32-bit big-endian size prefix and frames |
| Tickets, TicketCodec | the ticket record, its JSON value tree, its bytes |
| TicketIds | uuid, socket number and counter as an id |
| TicketNodes, TicketControllers | peer, worker and controller classes, whole remote calls |
| TicketProtocol | controller and worker as two processes, all interleavings |
| FtpReplies, FtpCommands, Pasv | the reply reader, command lines, the 227 address |
| FtpPaths, FtpNavigators | lexical normal form and its meaning, shortest navigation |
| FtpServers, FtpLinks | the server (tree, access policy, replies) and the control connection |
| FtpSessions, FtpRuns | the file operations and runs of them |

The network is a channel that keeps order and hands out any number of elements per read; an
unreliable one may also fail. A reliable one gives results that depend on the byte stream
alone, which is how independence from chunking is stated. Bytes are `byte` for frames and
`char` for FTP text.

The FTP server answers with the codes the client accepts, in any wording (one-line or
multi-line), and any access policy may refuse any command, PASV included, except CWD to
dot-dot or dot. CWD and MLST take dot and dot-dot for the current and the parent directory;
no other command takes them for an entry.

## Where the code is narrower than its documentation

The model follows the code; each point is a lemma or a contract.

- `readUntil` hands out two elements from the delimiter's start whatever its length:
  `ReadUntilExactness`.
- After a `readExact` that failed, for whatever reason, the buffer holds zero elements nobody
  sent, and calling it again hands them out: `RetryAfterFailure`.
- On the control connection the same filler is 1024 elements before which no CRLF will ever
  come: after one timeout (or one line too long) no later reply is read, whatever arrives:
  `ReceiveAgain`.
- A frame of 2^32 bytes or more is cut short: `FrameRoundTripExactly`.
- A timeout outside `int` is narrowed on the wire: `TicketRoundTripExactly`,
  `TimeoutNarrowingExactly`.
- The random part of a ticket id has its 4 at index 12 and its variant digit at index 16, where
  a version-4 uuid (section 5.4 of RFC 9562) has them at 14 and 19: `UuidExactly`, `NotVersionFour`.
- A reply line of 1023 characters just fits the line buffer, but its line feed stays in front
  of the next reply, whose code is then not read right: `LineFeedIsLeft`.
- The code of a reply is right exactly when the reply's first character is a digit, or, after
  at most two line breaks, for the code 000 (`CodeIsRightExactly`): line breaks in front of a
  reply are taken for part of it.
  After one blank line the first digit alone is the code; after two, nothing but line breaks
  is looked at and `std::stoi` throws out of `receiveResponse`: `AnswerExactly`,
  `BlankLinesBreakCode`.
- A path whose last element is empty, dot or dot-dot normalises to one with a trailing
  separator, and the navigator gets an empty component: `NormalisationKeepsMeaningExactly`.
- A relative remembered path and an absolute target drift apart, and so do components named
  backslash, which descending passes over: `DriftExactly`, `DriftWithoutBackslash`,
  `BackslashDrifts`, `DriftExample`.
- A change of directory whose first step can be taken and a later one cannot leaves the server
  where the steps led and the navigator where it was: contract of `ChangeDirectory`,
  `PlanNeverReturns`.
- `exists`, `isDirectory`, `createDir` and `remove` on a path that ends in dot or dot-dot,
  unless MLST is advertised and answers for it, probe it by CWD and step up afterwards, so the
  server ends above the parent directory unless that is the root: `ProbeReturnsExactly` and
  the contracts of the four.
- `createDir` and `exists` report success for a path that ends in a separator without asking
  the server; `exists` misses files when neither MLST nor SIZE is advertised: contracts of
  `CreateDir` and `Exists`, `ExistsAgreesExactly`.
- A streaming callback that fails leaves the final reply unread (a reading one that takes every
  span never does: `AcceptsAllExactly`), and then the answer to every later command is that of
  the one before it: `ExchangeAll`, `AnswersAreLate`. A failing upload callback also leaves the
  partial file stored: contracts of `ReadStreaming` and `WriteStreaming`.
- The documentation says a handshake happens on construction and a goodbye frame is sent on
  destruction; the code does neither, and the model has neither.

## Model

| member | source | states |
|---|---|---|
| Sockets.Socket.MoveData | include/socket/details/SocketBaseDetail.h:62-74 | moves the front of the buffer to the caller, keeps the rest, leaves the remainder of the caller's buffer alone |
| Sockets.Socket.Refill | include/socket/details/SocketBaseDetail.h:145-161 | a read either appends 1 or more arrived elements, or fails and leaves `room` zero elements behind the buffered ones |
| Sockets.Socket.ReadSome | include/socket/details/SocketBaseDetail.h:118-165 | hands out a non-empty prefix of what is pending, zero-fills the rest, conserves the stream; all error cases |
| Sockets.Socket.ReadExact | include/socket/details/SocketBaseDetail.h:168-213 | on a reliable connection succeeds exactly when enough is pending, with exactly the next elements; on any connection when enough is buffered; on failure all arrived elements stay in front of the buffer |
| Sockets.Socket.ReadUntil | include/socket/details/SocketBaseDetail.h:216-275 | finds the first delimiter of the whole stream, also across chunks; outcome decided by the stream alone, and with no room by what is buffered; buffer-too-small consumes nothing; after any other failure the kept part holds no delimiter |
| Sockets.Socket.WriteAll | include/socket/details/SocketBaseDetail.h:278-330 | everything is written and counted, or an error |
| Sockets.Interleave | include/socket/details/SocketBaseDetail.h:62-275 | over any interleaving of the three reads in which no refill fails, elements handed out followed by those pending are those pending before |
| Sockets.ReadUntilExactness | include/socket/details/SocketBaseDetail.h:239-253 | the result is the shortest prefix ending in the delimiter exactly for two-element delimiters that fit, or one-element ones cut short by the buffer's or the room's end |
| Sockets.RetryAfterFailure | include/socket/details/SocketBaseDetail.h:187-212 | after a failed readExact, whatever the error, state and size, the second call succeeds with the elements that arrived, too few, and then zeros nobody sent |
| Frames.PrefixDecodesToLength | src/protocol/TicketFrame.cpp:29-33 | decoding the prefix of any uint32 gives it back |
| Frames.LengthEncodesToPrefix | src/protocol/TicketFrame.cpp:102-111 | any four bytes are the prefix of the length they are read as |
| Frames.FrameLayout | src/protocol/TicketFrame.cpp:102-164 | byte by byte, what a frame looks like on the wire |
| Frames.MakeLengthPrefix | src/protocol/TicketFrame.cpp:102-111 | the array filled by index is the big-endian prefix |
| Frames.FrameRoundTripExactly | src/protocol/TicketFrame.cpp:113-164 | a frame written and parsed back is itself exactly when its size fits 32 bits |
| Frames.NoFrameInProperPrefix | src/protocol/TicketFrame.cpp:113-128 | no frame is read before its last byte has arrived |
| Frames.WriteFrame | src/protocol/TicketFrame.cpp:147-164 | prefix and frame are appended to the stream; the result is four plus the length |
| Frames.ReadFrame | src/protocol/TicketFrame.cpp:113-128 | takes exactly the first frame of the stream, and succeeds exactly when it is complete |
| Frames.TransferFrames | src/protocol/TicketFrame.cpp:102-164 | any sequence of frames arrives as it was sent, under any chunking |
| TicketCodec.ToJson | src/protocol/TicketJson.cpp:28-59 | builds the object the decoding lemmas speak of, absent optionals having no key |
| TicketCodec.EncodedExactly | src/protocol/TicketJson.cpp:14-59 | the keys of the encoded object, and what stands under each |
| TicketCodec.FromJson | src/protocol/TicketJson.cpp:61-120 | the field-by-field updates are the decoding function, with an error for the first field of a wrong type |
| TicketCodec.DecodedExactly | src/protocol/TicketJson.cpp:61-120 | an object decodes to a ticket exactly when it describes that ticket, key by key, with the default of each absent key and of unknown texts |
| TicketCodec.DecodeEncoded | src/protocol/TicketJson.cpp:28-120 | decoding undoes encoding except for narrowing the timeout |
| TicketCodec.TicketRoundTripExactly | src/protocol/TicketJson.cpp:28-120 | a ticket survives encoding and decoding exactly when its timeout fits an int |
| TicketCodec.DecodingIsStable | src/protocol/TicketJson.cpp:28-120 | for every accepted JSON object, encoding and decoding again changes nothing |
| TicketCodec.TypeStringsInvert | include/protocol/Ticket.h:28-38 | the type's string form is read back as the type |
| TicketCodec.StatusStringsInvert | include/protocol/Ticket.h:40-56 | the status' string form is read back as the status |
| TicketIds.GenerateUuid | src/protocol/TicketController.cpp:18-48 | whatever is drawn, 36 characters of the shape `UuidExactly` spells out |
| TicketIds.UuidExactly | src/protocol/TicketController.cpp:18-48 | the shape, position by position |
| TicketIds.NotVersionFour | src/protocol/TicketController.cpp:30-44 | an id of that shape that is no version-4 uuid |
| TicketIds.TicketIdInjective | src/protocol/TicketController.cpp:68-71 | the id string determines uuid, socket number and counter |
| TicketIds.CollisionExactly | src/protocol/TicketController.cpp:18-71 | two ids of one controller collide exactly when the 64-bit counter wrapped between them and the uuids repeat |
| TicketIds.IdsAreDistinct | src/protocol/TicketController.cpp:18-71 | the first 2^64 ids are pairwise different whatever the random source yields |
| TicketNodes.TicketPeer.SendFrame | src/protocol/TicketPeer.cpp:52-73 | the serialized ticket goes out as one frame |
| TicketNodes.TicketPeer.ReceiveFrame | src/protocol/TicketPeer.cpp:98-133 | the first frame of the stream, decoded |
| TicketNodes.TicketPeer.Handshake | src/protocol/TicketPeer.cpp:172-187 | one request written, one response taken from the stream; with nothing going wrong on the way the outcome is what the pending bytes hold |
| TicketNodes.TicketPeer.Goodbye | src/protocol/TicketPeer.cpp:206-214 | marks the peer closed and closes a connected socket |
| TicketNodes.TicketWorker.ProcessTicket | src/protocol/TicketWorker.cpp:65-109 | exactly one response, as the handler tables decide |
| TicketNodes.ResponseExactly | src/protocol/TicketWorker.cpp:65-109 | the response field by field: the handler's value or message on the ticket's own data, or the reason there is no handler |
| TicketNodes.TicketWorker.HandleNext | src/protocol/TicketWorker.cpp:41-51 | consumes one frame and answers it; a frame that does not decode gets no answer |
| TicketNodes.ExchangeIsLocalCall | src/protocol/TicketWorker.cpp:65-109 | encoding, worker, decoding and interpretation together are the local call, for every handler table |
| TicketNodes.TimeoutNarrowingExactly | src/protocol/TicketJson.cpp:36 | remote and local calls agree under every handler table exactly for timeouts in int range |
| TicketControllers.TicketController.GenerateTicketId | src/protocol/TicketController.cpp:68-71 | uuid, slash, socket number, hash, counter; the id is new until the counter wraps |
| TicketControllers.TicketController.Send | src/protocol/TicketController.cpp:73-108 | the request sent, field by field; which response it gets; the result, and each error, as that response decides |
| TicketControllers.TicketController.Poll | src/protocol/TicketController.cpp:294-315 | the poll sent, field by field; which response it gets; FAILED becomes an error |
| TicketControllers.TicketController.SendLong | src/protocol/TicketController.cpp:147-218 | against any peer: progress sees exactly the responses before the last, all RUNNING; each poll is spelled out and carries the id of the response before it; the first other response ends it; success exactly for COMPLETED and CANCELLED, and each error |
| TicketControllers.LongCallReadsTickets | src/protocol/TicketController.cpp:147-218 | against a stream holding the frames of tickets, RUNNING up to the last, the responses are those tickets |
| TicketControllers.TicketController.Cancel | src/protocol/TicketController.cpp:341-362 | the request sent and which response it gets; success exactly for a CANCELLED response |
| TicketControllers.WorkerNeverPolled | src/protocol/TicketWorker.cpp:65-109 | against a worker the polling loop never runs |
| TicketControllers.RemoteCall | src/protocol/TicketController.cpp:73-108 | `send` with the worker's turn in between equals the local call and leaves the connection ready |
| TicketProtocol.RequestsAndResponsesPair | src/protocol/TicketPeer.cpp:172-187 | in every reachable state at most one request is outstanding, and responses pair with requests in order by id, type and command |
| TicketProtocol.RemoteCallsAreLocalCalls | src/protocol/TicketController.cpp:73-108 | every call of every run returns the local call's result |
| TicketProtocol.CallSucceedsExactly | src/protocol/TicketWorker.cpp:65-109 | a call yields r exactly when there is no long handler and the short handler yields r |
| TicketProtocol.CallsProgress | src/protocol/TicketPeer.cpp:172-187 | while a call is under way some step is possible and every step brings it nearer its end |
| TicketProtocol.CallsReturn | src/protocol/TicketPeer.cpp:172-187 | under any scheduling a call is over within a bounded number of steps |
| FtpReplies.ReceiveResponse | src/protocol/FtpFileTransfer.cpp:305-342 | the outcome is a function of the stream, under any chunking; the code is the reply's own exactly when the first pending character is a digit (or, after at most two line breaks, the code is 000); a failure other than the exception clogs the buffer, and a clogged buffer makes it fail |
| FtpReplies.ReceiveAgain | src/protocol/FtpFileTransfer.cpp:305-342 | after a failed call, except one whose complete reply has no readable code, no later call succeeds, whatever arrives |
| FtpReplies.SplitWire | src/protocol/FtpFileTransfer.cpp:257-271 | splitting the wire form of lines gives the non-empty ones back |
| FtpReplies.SplitExactly | src/protocol/FtpFileTransfer.cpp:257-271 | the lines of any text: its parts between line feeds, the last one too, stripped, without the empty ones |
| FtpReplies.StripExactly | src/protocol/FtpFileTransfer.cpp:262-269 | stripping takes all the line breaks at the end and nothing else |
| FtpReplies.CompleteExactly | src/protocol/FtpFileTransfer.cpp:207-240 | which lines, of whatever shape, look like a complete reply |
| FtpReplies.CompleteOnlyAtEnd | src/protocol/FtpFileTransfer.cpp:207-240 | a well-formed reply looks complete exactly when all its lines are there |
| FtpReplies.ReplyIsRead | src/protocol/FtpFileTransfer.cpp:305-342 | a well-formed one-line or multi-line reply is read whole, with its code, and nothing after it |
| FtpReplies.AnswerExactly | src/protocol/FtpFileTransfer.cpp:257-339 | for any text that looks complete: each leading line break costs one digit of the first line's code, three of them end in the exception |
| FtpReplies.CodeIsRightExactly | src/protocol/FtpFileTransfer.cpp:305-342 | for any stream with a complete reply, the code returned is that of the reply's first line exactly when the stream begins with a digit, or the code is 000 after at most two line breaks |
| FtpReplies.ReceiveAll | src/protocol/FtpFileTransfer.cpp:305-342 | the i-th call returns the i-th reply of the stream |
| FtpReplies.BlankLinesBreakCode | src/protocol/FtpFileTransfer.cpp:325-339 | a well-formed reply after any number of blank lines is read with them as one: with none its code is right, with one it is the first digit, with more the exception |
| FtpReplies.LineFeedIsLeft | src/protocol/FtpFileTransfer.cpp:308-331 | a reply line of 1023 characters leaves its line feed unread, and the next code is not read right |
| FtpReplies.LongLineIsRefused | src/protocol/FtpFileTransfer.cpp:308-318 | a line of 1024 characters or more ends the reading |
| FtpCommands.CommandIsRead | src/protocol/FtpFileTransfer.cpp:292-303 | the command line the client formats is parsed to the same verb and name |
| FtpCommands.CommandTexts | src/protocol/FtpFileTransfer.cpp:519-1132 | each command line as it goes out |
| FtpCommands.TypeFactExactly | src/protocol/FtpFileTransfer.cpp:1069-1082 | the first type fact of an MLST answer decides, wherever it stands, by whether its kind begins with dir; an answer without one says nothing |
| Pasv.ParsePasvResponse | src/protocol/FtpFileTransfer.cpp:1213-1277 | succeeds exactly when the first six comma-separated fields in the parentheses are octets, with the positional address and port |
| Pasv.FieldsDecideExactly | src/protocol/FtpFileTransfer.cpp:1213-1277 | any fields in parentheses yield an endpoint exactly when there are six or more and the first six are octets, and then theirs |
| Pasv.NoParentheses | src/protocol/FtpFileTransfer.cpp:1216-1228 | without a parenthesis of either kind there is none |
| Pasv.EndpointDigits | src/protocol/FtpFileTransfer.cpp:1270-1276 | the address has the first four octets as its bytes, in network order, and the port the last two, high byte first |
| Pasv.OctetExactly | src/protocol/FtpFileTransfer.cpp:1170-1211 | a field is an octet exactly when it is optional leading whitespace and a decimal in 0..255 |
| Pasv.TrimExactly | src/protocol/FtpFileTransfer.cpp:1170-1177 | leading whitespace, and nothing else, goes |
| Pasv.PasvRoundTrip | src/protocol/FtpFileTransfer.cpp:1213-1277 | any six octets printed in the 227 form are parsed back to that address and port |
| Pasv.ShiftOrIsPositional | src/protocol/FtpFileTransfer.cpp:1271-1272 | shifts and ors equal the positional sums without truncation |
| FtpPaths.Split | src/protocol/FtpUtils.cpp:142-153 | the loop yields the elements that are neither dot nor dot-dot |
| FtpPaths.CancelKeepsMeaning | src/protocol/FtpUtils.cpp:136-140 | removing name/dot-dot pairs keeps the directory meant and reaches the normal shape |
| FtpPaths.NormalisationKeepsMeaningExactly | src/protocol/FtpUtils.cpp:136-153 | components of the normal form are the directory meant by the raw path exactly when no separator is left trailing, which the raw path's last element decides |
| FtpPaths.NormalizeExample | src/protocol/FtpUtils.cpp:136-140 | /a/../b/. becomes /b/ |
| FtpNavigators.StepsReach | src/protocol/FtpUtils.cpp:107-130 | the issued steps lead to the target and are as many as the components of both paths outside their common prefix |
| FtpNavigators.StepsAreShortest | src/protocol/FtpUtils.cpp:107-130 | no sequence of steps that reaches the target is shorter |
| FtpNavigators.PlanIsShortest | src/protocol/FtpUtils.cpp:59-134 | the same for the whole of changeDirectory while it stays in step |
| FtpNavigators.PlanNeverReturns | src/protocol/FtpUtils.cpp:96-130 | once any step of the plan is taken the server is elsewhere than where it began |
| FtpNavigators.DriftExactly | src/protocol/FtpUtils.cpp:96-170 | for every remembered path and target, exactly which changes leave navigator and server apart |
| FtpNavigators.DriftWithoutBackslash | src/protocol/FtpUtils.cpp:96-105 | the same in terms of the raw paths, for targets with no component named backslash |
| FtpNavigators.BackslashDrifts | src/protocol/FtpUtils.cpp:155-170 | from the path dot, a change to the root's entry backslash issues no step |
| FtpNavigators.DriftExample | src/protocol/FtpUtils.cpp:96-105 | from foo to /bar the server ends in foo/bar |
| FtpNavigators.DirectoryNavigator.FtpCd | src/protocol/FtpFileTransfer.cpp:28-43 | one CWD; success exactly when the server can take the step, and its directory then |
| FtpNavigators.DirectoryNavigator.CountCommon | src/protocol/FtpUtils.cpp:110-114 | the loop counts the longest common prefix |
| FtpNavigators.DirectoryNavigator.DescendFromRoot | src/protocol/FtpUtils.cpp:155-170 | steps into each component from wherever the server is, up to the first that cannot be taken |
| FtpNavigators.DirectoryNavigator.IssuePlan | src/protocol/FtpUtils.cpp:96-130 | the loops issue the planned steps in order, each of which can be taken, up to the first that cannot |
| FtpNavigators.DirectoryNavigator.ChangeDirectory | src/protocol/FtpUtils.cpp:59-134 | succeeds exactly when every planned step can be taken where those before it lead; the commands issued and where the server is, after success or failure; in step again exactly as `DriftExactly` says after a success, and exactly when the first step cannot be taken after a failure |
| FtpServers.EffectKeepsState | src/protocol/FtpFileTransfer.cpp:519-970 | no command leaves the server's tree broken or its current directory gone |
| FtpSessions.TargetIsMeaning | src/protocol/FtpFileTransfer.cpp:574-970 | the entry an operation works on, its parent's meaning and the last name, is the one the path means |
| FtpLinks.FtpServer.Serve | src/protocol/FtpFileTransfer.cpp:372-381 | the server's turn: one command line read, obeyed and answered in any wording, behind the replies not read yet |
| FtpLinks.ControlLink.Exchange | src/protocol/FtpFileTransfer.cpp:372-381 | the answer read is the oldest reply not read yet; with none waiting it is that of the command sent, and no other reply is consumed |
| FtpLinks.ExchangeAll | src/protocol/FtpFileTransfer.cpp:372-381 | over any commands, codes read and unread together are those waiting before and those of the commands, in order |
| FtpLinks.AnswersAreLate | src/protocol/FtpFileTransfer.cpp:372-381 | with n replies unread every answer is that of the command n before it, and n stay unread |
| FtpSessions.ProbeReturnsExactly | src/protocol/FtpFileTransfer.cpp:635-659 | stepping into an entry and up comes back exactly for proper names, or at the root |
| FtpSessions.FtpFileTransfer.ExistsMlst | src/protocol/FtpFileTransfer.cpp:609-633 | true exactly for visible entries |
| FtpSessions.FtpFileTransfer.ExistsSize | src/protocol/FtpFileTransfer.cpp:661-680 | true exactly for visible files |
| FtpSessions.FtpFileTransfer.ExistsCwd | src/protocol/FtpFileTransfer.cpp:635-659 | true exactly for directories it can enter, and where the probe leaves the server |
| FtpSessions.FtpFileTransfer.Exists | src/protocol/FtpFileTransfer.cpp:682-727 | the answer under any access policy, and its agreement with the tree where nothing is forbidden; no file name means yes; in step again exactly for proper last names, at the root, or when MLST answers for the name; succeeds when the parent may be entered |
| FtpSessions.ExistsAgreesExactly | src/protocol/FtpFileTransfer.cpp:682-727 | `exists` is the tree's answer exactly with MLST or SIZE, or for what is not a file |
| FtpSessions.FtpFileTransfer.IsDirectoryMlst | src/protocol/FtpFileTransfer.cpp:1056-1090 | the type fact of a visible entry, an error otherwise |
| FtpSessions.FtpFileTransfer.IsDirectoryCwd | src/protocol/FtpFileTransfer.cpp:1092-1132 | the CWD probe with SIZE as fallback |
| FtpSessions.FtpFileTransfer.IsDirectory | src/protocol/FtpFileTransfer.cpp:1134-1164 | the answer or error under any access policy; true for directories, false for files; in step again exactly for proper last names, at the root, or when MLST answers for the name, after the error too |
| FtpSessions.FtpFileTransfer.CreateDir | src/protocol/FtpFileTransfer.cpp:574-607 | success means present, as a new directory unless it was there, all else unchanged; under any access policy exactly when it succeeds; in step again exactly for proper last names, at the root, or when MLST answers for the name, after a refusal too |
| FtpSessions.FtpFileTransfer.Remove | src/protocol/FtpFileTransfer.cpp:729-760 | success means it was there and is gone, all else unchanged; under any access policy exactly when it succeeds; in step again exactly for proper last names, at the root, or when MLST answers for the name, after a refusal too |
| FtpSessions.FtpFileTransfer.OpenDataConnection | src/protocol/FtpFileTransfer.cpp:1281-1306 | succeeds exactly when PASV is allowed; then the parsed address is the one the server announced, and the data connection is empty |
| FtpSessions.ReceiveRawResponse | src/protocol/FtpFileTransfer.cpp:344-370 | everything the peer sends until it closes |
| FtpSessions.StreamInto | src/protocol/FtpFileTransfer.cpp:852-888 | the spans given to the callback, of 16384 bytes at most, concatenate to the data; it goes on exactly while the callback takes them whole, and reports why not |
| FtpSessions.AcceptedExactly | src/protocol/FtpFileTransfer.cpp:867-883 | each span was offered after those before it, and taken whole |
| FtpSessions.AcceptsAllExactly | src/protocol/FtpFileTransfer.cpp:867-883 | the consumers whose spans are always accepted are those that take the whole of every span |
| FtpSessions.StreamOut | src/protocol/FtpFileTransfer.cpp:1008-1033 | what is written is what the callback produced up to its empty chunk or error; the error is the callback's |
| FtpSessions.FailsExactly | src/protocol/FtpFileTransfer.cpp:1010-1022 | the upload fails exactly when some chunk is an error and all before it held data |
| FtpSessions.ProducedExactly | src/protocol/FtpFileTransfer.cpp:1010-1030 | what is produced is the chunks before the first that is empty or an error, one after the other |
| FtpSessions.ChunkingIsIrrelevant | src/protocol/FtpFileTransfer.cpp:1008-1033 | any cutting into non-empty chunks produces the same data |
| FtpSessions.FtpFileTransfer.Read | src/protocol/FtpFileTransfer.cpp:762-819 | the file's content; under any access policy exactly when it succeeds; in step, after a refusal too if the parent may be entered |
| FtpSessions.FtpFileTransfer.ReadStreaming | src/protocol/FtpFileTransfer.cpp:821-905 | the spans are the file's content and their number the result; exactly when a reply stays unread |
| FtpSessions.FtpFileTransfer.Write | src/protocol/FtpFileTransfer.cpp:907-970 | the file then holds the data, all else unchanged; under any access policy exactly when it succeeds; in step, after a refusal too if the parent may be entered |
| FtpSessions.FtpFileTransfer.WriteStreaming | src/protocol/FtpFileTransfer.cpp:972-1054 | the file then holds what was produced, also after a failing producer, which leaves a reply unread |
| FtpSessions.FtpFileTransfer.List | src/protocol/FtpFileTransfer.cpp:519-572 | the lines of the directory's listing, session in step |
| FtpRuns.Run | src/protocol/FtpFileTransfer.cpp:519-1164 | any run on absolute paths, or relative ones, that goes on through refusals: while each call succeeds or is refused in a directory that may be entered, the session is in step, each outcome says what the call returned of the tree and how it changed it, and a call that the tree allows and nobody forbids succeeds |
| FtpRuns.Perform | src/protocol/FtpFileTransfer.cpp:519-1164 | one operation: its outcome is what the tree held and how it changed, when it must succeed, and when the session is in step after it |
| FtpRuns.WrittenIsRead | src/protocol/FtpFileTransfer.cpp:762-1054 | in any run, reading a file in either way returns the bytes last written to it in either way, whatever was done to other entries in between |
| FtpRuns.WriteThenRead | src/protocol/FtpFileTransfer.cpp:762-970 | a read after a successful write returns the data; when each must succeed |
| FtpRuns.ReadBothWays | src/protocol/FtpFileTransfer.cpp:762-905 | streaming and whole-file reads give the same bytes and count; when each must succeed |

## Left out

- asio, coroutines, executors, timers and cancellation: a read yields any number of elements or fails, a write appends everything or fails.
- TLS, `Client`, `Server`, socket factories, error translation and logging: wrappers over libraries that are not part of this model.
- The asynchronous and TLS copies of each operation: same logic as the ones modelled.
- JSON text: printing and parsing are a parameter, taken to be inverse to each other on value trees; floating-point numbers and invalid UTF-8 are not modelled.
- Handlers with side effects: a handler is a function of its context, and its failure is a message.
- Moving a `TicketPeer` and its destructor: ownership of the socket is fixed.
- Login, greeting, FEAT parsing and `openFtpConnection`: the capabilities are given as a record.
- Parsing of listing lines and timestamps: `list` returns the lines of the listing.
- TYPE is never sent by the client, so the server is taken to transfer bytes as they are.
- Symbolic links, several clients at once and file names that hold a line break or a slash.
- The strings of `std::filesystem::path`: a path is its root flag, file names and trailing separator.
- FtpNavigators.DirectoryNavigator.ChangeDirectory: the Windows drive branches are excluded, because what a drive name means to a server depends on the platform.
- FtpSessions.FtpFileTransfer.OpenDataConnection: the server's 227 replies always hold an address, so the unchecked use of a missing one does not arise.
- FtpSessions.StreamOut: the producer is a finite sequence of chunks, because one that never ends makes the original loop forever.
