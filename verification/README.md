# A verified model of a SOCKS5 proxy

The repository is a single-threaded SOCKS5 proxy with a management protocol. A `select` loop dispatches ready
descriptors to the handlers of a per-session state machine; incremental parsers read the greeting, the login and the
request one byte at a time through table-driven automata; a relay copies bytes between two sockets through two linear
buffers; a store keeps the users in an array and in a text file; and a management client and server exchange framed
requests that change the stores.

Each source file has a module. What the source updates in place is a class (`Parser`, `HelloParser`, `AuthParser`,
`RequestParser`, `Connector`, `Buffer`, `Client`, `FdSelector`, `UserStore`, `File`, `AuthMethods`,
`MonitorAuthParser`, `MonitorReqParser`, `StateMachine`) whose methods keep the loops, branches and constants of the
source and are proved against a specification function on values. The theorems are about those functions: whole-message
readings of the two RFCs, a map for the user array, a map for the selector's table, histories for the relay, and runs
of arbitrary length for the two session state machines.

What the sockets, the name resolver, the clock and other sessions do is arbitrary: every `recv`, `send`, `connect`,
`getsockopt` and lookup result is an input, and so are the user table and the accepted methods each event of a SOCKS
session finds, the descriptors in use when it connects, and the stores each event of a management session finds.

## Where the code differs from what it promises

Each of these is proved, and where the code meets the promise under a condition the condition is exact.

- The scan of the accepted methods counts in a signed byte, which after 127 is negative: for a list of 128 methods or
  more it goes on outside the array unless it finds its method before. What lies there can let in a client that offers
  no authentication although that is not accepted, for exactly these lists (`ScanFinds`, `ListGuardsExactlyInside`); in
  every run it is the only other way past the gate (`NobodyPassesUnauthenticated`).
- `user_create` copies strings of any length, which the command line and the users file can give. A password that fills
  its field runs on into the level, and a name into the password, so such a name is not found again and can be taken
  twice (`LongNameIsTakenTwice`). The array does what a map does exactly when every user created fits its entry, and so
  for all strings of at most 255 bytes (`ApplyRefinesRegistry`, `StoreRefinesRegistry`).
- The name that is looked up is the C string in the address buffer, which is the name in the request exactly when that
  has no NUL (`LookupIsOfTheName`, `NegotiationFollowsRfcs`).
- A name or password of 255 bytes, which section 2 of RFC 1929 allows, is never decided: the terminator after its last
  byte falls on the counter that follows the array in `auth_parser_t` and sets it back to 0, so the session keeps
  reading. One of no bytes, which that section does not allow, is read as a length that takes up one byte
  (`AuthFollowsRfc1929` holds exactly without the one or the other; `LoginIsAnswered`, `NegotiationFollowsRfcs`).
- A request for an empty domain name is not read as section 4 of RFC 1928 lays it out: a zero length counts as a length
  not yet seen, and the next byte is taken for it (`RequestFollowsRfc1928` holds exactly without such a request).
- The 255th argument of a management request puts the null pointer after it outside the array of arguments, and the
  next one wraps the byte that counts them; frames are handled exactly up to 254 arguments (`FrameIsHandled`,
  `HandledExactlyWhenFramed`).
- A management session that is logged in and whose connection fails before the first length of a request frees what an
  array not yet set points to. This and the 255th argument are the only events after which a management session is not
  defined (`NoRunAborts`).
- The users file may hold names and passwords of 256 characters, one more than their arrays have room for with a
  terminator. A name of 256 characters runs on into the password, colons included; a password of 256 characters clears
  the low byte of the level, so that an ordinary user is loaded as an administrator (`ParsedUserIsClean`,
  `LineComesBack`, `LongPasswordMakesAdmin`; the level is taken to be stored with its low byte first).
- A peer that has shut its output is never sent another byte, because the read handler that finds the end of input
  again, first in each round of the selector, withdraws the write interest (`RoundsNeverSendToHalfClosed`,
  `RoundsStrandLateInput`, and a complete run in `HalfCloseStrandsTheAnswer`).
- `forward_read` moves to DONE with bytes still buffered; the session is then not freed, and the next event on either
  descriptor aborts the program. No other reachable state of a session aborts (`AbortsExactlyInUnfinishedDone`), and a
  run of a whole session that ends so exists for every address and every byte of an answer (`AnswerAborts`).
- The descriptor of a failed connection is closed but stays registered, so the next address can only be used on a
  descriptor number that is not in use (`FallbackNeedsNewDescriptor`, `ReusedDescriptorBlocksFallback`).
- `selector_register` grows the table only for a descriptor above its size, not for one equal to it. That is safe
  exactly for a selector created for at least 512 descriptors; the server creates it for 1000
  (`InitialSizeForSafety`).
- With strings of at most 255 characters a user file loads back into the table it was saved from exactly when names and
  passwords consist of the characters from 32 to 127 and no name contains a colon (`SavedUsersComeBack`).
- A refused management login is answered by two status bytes, and for unknown or wrong credentials the second one says
  success, as does the only one when the connection fails (`LoginAnswers`).
- Without an acceptable method `hello_write` still goes on to the username and password; nobody gets past them without
  the credentials of a user (`AuthOpens`).
- The client's change-password encoder asks for one byte of buffer more than it writes
  (`WriteMonitorChangePassRequest`).

Two terminators land one byte past their arrays without effect, and the model gives those arrays the byte they land on:
after a management password of 255 bytes it is one that aligns the next field of `monitor_auth_parser_t`, and after a
domain name of 255 bytes it is the first of the IPv4 address in `request_parser_t`, which a domain name does not use.

## Model

| member | source | states |
|---|---|---|
| `ParserEngine.FirstMatchSkips` | src/lib/parser/parser.c:44-79 | Transitions that do not match a byte have no influence on the one that is taken |
| `ParserEngine.TransitionReports` | src/lib/parser/parser.c:48-78 | A byte matches a transition for that byte or for any, and both actions of a transition are reported in their order |
| `ParserEngine.Parser.SetState` | src/lib/parser/parser.c:85-86 | A client may put the automaton in any of its states |
| `ParserEngine.Parser.Reset` | src/lib/parser/parser.c:42 | The automaton is back in its start state |
| `ParserEngine.Parser.Feed` | src/lib/parser/parser.c:44-79 | A byte moves the state along the first matching transition and reports the events of its actions; a byte without one changes no state |
| `Strcmpi.ParserUtilsStrcmpi` | src/lib/parser/parser_utils.c:70-131 | The three flat arrays filled in place are the rows of the automaton of the string |
| `Strcmpi.RowStep` | src/lib/parser/parser_utils.c:87-122 | In a state of the automaton the next character in either case goes on, anything else goes to the sink |
| `Strcmpi.StateTellsPrefix` | src/lib/parser/parser_utils.c:70-131 | After any input the state is the length of the input when it is a prefix of the string ignoring case, and the sink otherwise |
| `Strcmpi.StrcmpiDecides` | src/lib/parser/parser_utils.c:70-131 | The last event is EQ, MAYEQ or NEQ exactly when the input equals the string, is a proper prefix of it, or differs, ignoring case |
| `Strcmpi.NeqAbsorbs` | src/lib/parser/parser_utils.c:112-122 | After NEQ every longer input reports NEQ |
| `AuthUtils.ChangeIsAllOrFails` | src/server/auth_utils.c:18-37 | A change succeeds exactly when every method is supported, and then the list is exactly those methods |
| `AuthUtils.DefaultIsUserPass` | src/server/auth_utils.c:11-22 | Without a list the default is method 2 alone; the methods there can be are 0 and 2 |
| `AuthUtils.FailedChangeLeavesBoth` | src/server/auth_utils.c:23-34 | A failed change leaves the new methods before the unsupported one and the old entries from there on |
| `AuthUtils.AuthMethods.ChangeAuthMethods` | src/server/auth_utils.c:18-37 | The array after a change, with the old entries left behind by a failed one |
| `AuthUtils.AuthMethods.AcceptedMethod` | src/server/auth_utils.c:39-53 | The scan with its signed index ends with the method found, not found, or outside the array |
| `AuthUtils.ScanFinds` | src/server/auth_utils.c:39-53 | A method is found exactly among the first 128; the scan leaves the array exactly when it is not among them and there are no fewer; below 128 the answer is that of the list |
| `Hello.TableTransits` | src/server/hello.c:35-66 | The engine takes the transitions of the greeting's table for every state and byte |
| `Hello.GreetingFollowsRfc1928` | src/server/hello.c:86-166 | On every byte string the greeting is decided as section 3 of RFC 1928 says, on byte 2+n and not before |
| `Hello.SelectsLargestCommon` | src/server/hello.c:124-158 | The choice is the largest method offered and found accepted, and 0xFF exactly when there is none |
| `Hello.HelloParser.SelectMethod` | src/server/hello.c:124-158 | The selection loop computes that choice |
| `Hello.HelloParser.HelloRead` | src/server/hello.c:86-166 | The handler, with its parser, its fields and its failure paths, refines the step on values |
| `Auth.TableTransits` | src/server/auth.c:47-84 | The engine takes the transitions of the login's table for every state and byte |
| `CBuffers.CountedBuffer.Put` | src/server/auth.c:138-141 | A byte and its terminator are stored in an array of 255 bytes; after the 255th byte the terminator clears the counter behind the array |
| `Auth.FieldsRun` | src/server/auth.c:131-171 | From the first length on the two fields are read and decided on the last byte, unless one fills its array |
| `Auth.LoginDecides` | src/server/auth.c:105-178 | On every byte string the login is decided exactly as its layout with empty and full fields says |
| `Auth.AuthFollowsRfc1929` | src/server/auth.c:105-178 | On every byte string the login is decided as section 2 of RFC 1929 says, on the last byte and not before, exactly when it has neither a field of 255 bytes, with which it is never decided, nor, against the RFC, an empty one |
| `Auth.MessageIsUnderstood` | src/server/auth.c:105-178 | The message of any two NUL-free strings makes the parser ask for exactly those strings, on its last byte, when both are below 255 bytes, and never when one is not |
| `Auth.AuthParser.LogIn` | src/server/auth.c:152-165 | The two C strings are looked up, and the outcome is stored and answered |
| `Auth.AuthParser.AuthRead` | src/server/auth.c:105-178 | The handler, with its arrays and the counters that follow them in memory, refines the step on values, for every byte |
| `Request.TableTransits` | src/server/request.c:90-155 | The engine takes the transitions of the request's table for every state and byte, the address type included |
| `Request.RequestDecides` | src/server/request.c:237-383 | On every byte string the request is decided exactly as its layout with skipped zero lengths says |
| `Request.RequestFollowsRfc1928` | src/server/request.c:237-383 | It is decided as section 4 of RFC 1928 says (address, big-endian port, wrong version, command or address type, need more) exactly when the domain name is not empty |
| `Request.ChunksDoNotMatter` | src/server/request.c:237-383 | However the stream is cut into chunks, the outcome and the deciding byte are those of the whole stream |
| `Request.LookupIsOfTheName` | src/server/request.c:385-420 | The name looked up is the name in the request exactly when that has no NUL |
| `Request.RequestParser.FeedByte` | src/server/request.c:257-378 | One byte through the engine and the event loop, which overrides the state of the parser, refines the step on values |
| `Request.RequestParser.RequestRead` | src/server/request.c:157-383 | The handler on a whole chunk, with the reply status, the next state and the address or C string to go on with of each outcome |
| `Connect.Connector.Try` | src/server/request.c:488-567 | The loop over the address list in place refines the call on values |
| `Connect.LoopExhaustsWhenNothingTakes` | src/server/request.c:529-566 | The list is exhausted exactly when no attempt connects on a descriptor that can be registered |
| `Connect.UnderWayIsReported` | src/server/request.c:493-514 | A connection under way is made on no error, pending while in progress, an error when it cannot be queried, and left alone in each case |
| `Connect.FirstTakenWins` | src/server/request.c:529-558 | The first attempt in list order that takes ends the loop, with its descriptor registered, in success when it connected at once and pending otherwise |
| `Connect.CallEndsExactly` | src/server/request.c:493-567 | Exactly when a call succeeds, is pending or fails in its query: by the state of the connection under way, or by the first attempt that takes |
| `Connect.SuccessIsReported` | src/server/request.c:493-551 | Calls end in success only with a last call that found the connection made, and leaves it as it is, or made one at once, on its descriptor |
| `Connect.CallInOrder` | src/server/request.c:488-567 | One call continues in the list where the last one stopped; a pending connection leaves everything alone |
| `Connect.AddressesAreTriedInOrder` | src/server/request.c:488-567 | In any sequence of calls, whatever other sessions do in between, the addresses are attempted in list order, each once; giving up means all were tried, and success is on the last one tried |
| `Connect.FallbackNeedsNewDescriptor` | src/server/request.c:516-566 | After a failed connection a later address is reached exactly when some attempt comes on a descriptor that is not registered |
| `Connect.ReusedDescriptorBlocksFallback` | src/server/request.c:520-566 | When the number just closed is handed out again every later address is rejected, even a reachable one |
| `Connect.TryConnectHasDescriptor` | src/server/request.c:539-561 | A pending or successful call has a destination descriptor, newly registered or the one already connecting |
| `Buffers.FullBufferIsReadable` | src/lib/buffer/buffer.c:22-55 | A buffer without room has something to read |
| `Buffers.ReadingFreesRoomAtTheEnd` | src/lib/buffer/buffer.c:45-55 | Reading gives no room back before the buffer is empty, and then all of it |
| `Buffers.Buffer.WriteAdv` | src/lib/buffer/buffer.c:38-43 | The bytes put at the write position are appended to the contents |
| `Buffers.Buffer.ReadAdv` | src/lib/buffer/buffer.c:45-55 | The first bytes of the contents go, and an emptied buffer is back at its base |
| `Buffers.Buffer.Compact` | src/lib/buffer/buffer.c:75-87 | The contents move to the base and stay the same |
| `Buffers.Buffer.ReadByte` | src/lib/buffer/buffer.c:57-66 | The first byte of the contents is taken, or 0 from an empty buffer |
| `Buffers.Buffer.WriteByte` | src/lib/buffer/buffer.c:68-73 | One byte is appended unless the buffer is full |
| `Relay.Client.ForwardRead` | src/server/forwarding.c:62-117 | The handler over both buffers, the closed flags and the interests refines the relay's step |
| `Relay.Client.ForwardWrite` | src/server/forwarding.c:13-60 | The same for sending, with shutting the output down |
| `Relay.Client.ConnectionFinished` | src/server/forwarding.c:7-11 | Both sides closed and both buffers empty |
| `Relay.Client.EndConnection` | src/server/closing.c:5-32 | The session is freed exactly when it is finished |
| `Relay.Client.ErrorHandler` | src/server/closing.c:34-62 | Both sides count as closed, the buffered bytes are dropped and the session is freed |
| `RelayRuns.StepKeepsInv` | src/server/forwarding.c:13-117 | Every step keeps conservation in both directions, clean shutdowns and the end conditions |
| `RelayRuns.NothingIsLostOrReordered` | src/server/forwarding.c:13-117 | In every run, in each direction, the bytes received are the bytes sent followed by the buffered ones; only an error drops the latter |
| `RelayRuns.ShutdownComesLast` | src/server/forwarding.c:17-53 | Output to a side is shut only after every byte there will ever be has been sent to it, and nothing is sent afterwards |
| `RelayRuns.FreedExactlyWhenDelivered` | src/server/closing.c:5-32 | A session that ends without an error has seen both ends close, and is freed exactly when everything received was sent |
| `RelayRuns.FullBufferHasOutput` | src/server/forwarding.c:69-75 | While forwarding, a buffer without room has output, so `recv` is never given length 0 |
| `RelayInterests.NothingOwedIsForgotten` | src/server/forwarding.c:13-117 | In every run, while forwarding, a side whose input is open waits to be written to whenever bytes or a shutdown are owed to it, and never waits for nothing |
| `RelayInterests.WritingSettlesInterest` | src/server/forwarding.c:17-60 | After a side has been written to it waits for input, and for output exactly when bytes are left; the other side is left as it was |
| `RelayInterests.ReadingSettlesInterests` | src/server/forwarding.c:69-116 | What both descriptors wait for after input, its end, a full buffer or nothing yet |
| `RelayInterests.EndsExactlyWhenOver` | src/server/forwarding.c:7-100 | A write ends the relay exactly when both inputs have ended and both buffers are empty, and a read exactly when both inputs have ended |
| `RelayInterests.FailureEnds` | src/server/forwarding.c:35-46 | A failed send or receive that is not to be tried again ends the session |
| `HalfClose.HalfClosedSideIsNeverSentTo` | src/server/forwarding.c:82-97 | In every run whose events the order of dispatch allows, nothing is sent to a side after the end of its own output |
| `RelayDispatch.TurnIsIteration` | src/lib/selector/selector.c:437-461 | The turns of those rounds are what the loop over the items dispatches when the handlers do what the relay does |
| `SelectorRounds.RoundIsIteration` | src/lib/selector/selector.c:431-462 | A whole iteration of the selector over the items of all sessions is one such round for a session whose descriptors the others leave alone |
| `RelayDispatch.RoundsNeverSendToHalfClosed` | src/lib/selector/selector.c:431-462 | In any rounds of the selector, with any input and output, nothing is sent to a side after the end of its own output |
| `RelayDispatch.RoundsStrandLateInput` | src/lib/selector/selector.c:431-462 | In any rounds of the selector, what arrives for such a side is never all delivered, and the session is then not freed without an error |
| `HalfClose.HalfCloseStrandsTheAnswer` | src/server/forwarding.c:62-117 | A run in which the client ends its output before the answer comes, and the whole answer stays in the buffer of a session in DONE that is not freed |
| `Selector.NextCapacity` | src/lib/selector/selector.c:169-184 | The halving loop computes one more than a power of two, bounded by the platform |
| `Selector.CapacityIsEnough` | src/lib/selector/selector.c:169-184 | For n up to 1024, n < capacity <= 1025 and capacity <= 2n+1 for n >= 1 |
| `Selector.RegisterInBounds` | src/lib/selector/selector.c:333-342 | The slot touched by a registration is in the table exactly when the descriptor is not equal to the size |
| `Selector.InitialSizeForSafety` | src/lib/selector/selector.c:278-342 | Every valid descriptor is safe exactly when the selector was created for at least 512 |
| `Selector.RegisterChangesOne` | src/lib/selector/selector.c:322-360 | When registering succeeds, is in use or is refused, and that it changes the one entry and nothing else |
| `Selector.UnregisterUndoes` | src/lib/selector/selector.c:362-412 | Unregistering takes a registration back, and a changed interest is that of a registration with it |
| `Selector.SelectorNew` | src/lib/selector/selector.c:278-294 | A new selector has the capacity for its initial size and registers nothing; there is none for more than the platform can handle |
| `Selector.FdSelector.EnsureCapacity` | src/lib/selector/selector.c:235-276 | Success leaves the index inside, keeps every slot, marks the new ones unused and never shrinks |
| `Selector.FdSelector.ItemsMaxFd` | src/lib/selector/selector.c:202-213 | The scan finds the largest used descriptor, or 0 |
| `Selector.FdSelector.ItemsUpdateFdset` | src/lib/selector/selector.c:215-228 | The bits of one descriptor in both sets agree with its item, and no other bit changes |
| `Selector.FdSelector.SelectorRegister` | src/lib/selector/selector.c:322-360 | Registering adds one entry to the map, or fails as the map does, and keeps slots, sets and maximum in agreement |
| `Selector.FdSelector.SelectorUnregisterFd` | src/lib/selector/selector.c:362-394 | Unregistering removes exactly that entry |
| `Selector.FdSelector.SelectorSetInterest` | src/lib/selector/selector.c:396-412 | Setting an interest changes exactly that one |
| `Selector.FdSelector.Perform` | src/lib/selector/selector.c:322-412 | Any sequence of the three operations keeps the table, both sets and the maximum those of the map after the same operations |
| `Selector.FdSelector.HandleIteration` | src/lib/selector/selector.c:431-462 | The loop over the items, whose handlers may change the selector, dispatches what the iteration over the map does |
| `Selector.IterationIsOrdered` | src/lib/selector/selector.c:431-462 | Whatever the handlers do, dispatches are in descriptor order, each at most once, reading before writing, and only of ready descriptors |
| `Selector.ItemDispatches` | src/lib/selector/selector.c:436-460 | Exactly which handlers of an item are called, with the attachment it had before both |
| `Selector.ReadHandlerSilencesWrite` | src/lib/selector/selector.c:442-459 | A read handler that withdraws the write interest of its descriptor is not followed by a write in that iteration |
| `Users.UserStore.GetUserIndex` | src/server/users.c:22-33 | The first position of the name, or -1 |
| `Users.EntryHolds` | src/server/users.c:199-201 | An entry reads back as the user put into it exactly when the strings fit their fields |
| `Users.CreateAnswers` | src/server/users.c:181-204 | A user is created exactly with level 0 or 1, under a new name, while there are fewer than 50; which refusal comes otherwise |
| `Users.UserStore.UserCreate` | src/server/users.c:181-204 | A new entry with what its fields hold of the strings is appended, or the call fails for its level, a full table or a name already there |
| `Users.UserStore.UserLogin` | src/server/users.c:206-221 | Success with the stored level exactly on the stored pair |
| `Users.UserStore.UserChangePassword` | src/server/users.c:241-254 | One password changes and nothing else |
| `Users.UserStore.UserDelete` | src/server/users.c:256-272 | One user goes and the others keep their order |
| `Users.ApplyRefinesRegistry` | src/server/users.c:181-272 | Each call on the array does what it does on a map from names exactly when the strings it puts in fit |
| `Users.StoreRefinesRegistry` | src/server/users.c:181-272 | Over any history the array answers as a map from names of at most 50 entries does and stands for it at every point, exactly when every user created fits, and so for all strings of at most 255 bytes |
| `Users.LongNameIsTakenTwice` | src/server/users.c:195-202 | A name of 256 bytes with a password can be created a second time |
| `Users.OrderIsKept` | src/server/users.c:181-272 | No call whose strings fit changes the order of the users that stay, and a new user comes last |
| `UsersFile.ParseUser` | src/server/users.c:57-104 | Every call that does not end the file consumes a byte and stays inside it |
| `UsersFile.File.ParseUserOf` | src/server/users.c:57-104 | The character loops over the file fill the memory of a `user_t`, whatever it held, so that its strings and level are those of the function |
| `UsersFile.LoadUsers` | src/server/users.c:106-166 | Loading ends on every file, with the table the function builds, fields of 256 characters included |
| `UsersFile.SaveUsers` | src/server/users.c:274-291 | The bytes written; for an empty table nothing is written and the file stays |
| `UsersFile.LoadKeepsTable` | src/server/users.c:106-166 | Loading any file only appends users, distinct and at most 50, that a file can give |
| `UsersFileLines.GoodLinesAreLoaded` | src/server/users.c:57-166 | Loading goes through the whole file: junk, cut and spoiled lines are left behind, every good line is created in turn, high bytes stand for a colon or an end of line, and the end of the file or a high byte where a line should begin ends it |
| `UsersFileLines.TableComesBackAfterJunk` | src/server/users.c:106-166 | A saved table comes back from behind a malformed first line |
| `UsersFile.ParsedUserIsClean` | src/server/users.c:57-104 | A user that is read has only admissible characters and no colon in the name exactly when the name has at most 255 characters or the password it runs on into has no colon |
| `UsersFile.FieldsHold` | src/server/users.c:88-99 | What the string functions see in the memory of a `user_t` after the two strings and their terminators were put into it |
| `UsersFile.LineComesBack` | src/server/users.c:57-104 | The line of a user with strings of up to 256 characters is read back as that user exactly when the terminators overrun nothing that matters |
| `UsersFile.LongPasswordMakesAdmin` | src/server/users.c:91-99 | The line of an ordinary user with a password of 256 characters loads an administrator |
| `UsersFile.SavedUsersComeBack` | src/server/users.c:106-166 | Loading the saved bytes of any table into an empty store gives the same table exactly when its characters are admissible |
| `MonitorAuth.SimulatesAuth` | src/server/monitor/monitor_auth.c:37-61 | The management login does byte for byte what the proxy's login does after the version, and never comes to its final states |
| `MonitorAuth.LoginReadsTwoFields` | src/server/monitor/monitor_auth.c:107-182 | On every byte string the login asks for exactly the two strings, of any lengths up to 255, on the last byte, and lets nobody through unasked |
| `MonitorAuth.MonitorAuthParser.LogIn` | src/server/monitor/monitor_auth.c:151-172 | Only the stored credentials of an administrator lead on |
| `MonitorAuth.MonitorAuthParser.MonitorAuthRead` | src/server/monitor/monitor_auth.c:107-182 | The handler, with its terminated buffers, refines the step on values |
| `MonitorReqUtils.ValidUser` | src/server/users.c:223-239 | Every C string is called an error |
| `MonitorReqUtils.HandleRequestOn` | src/server/monitor/monitor_req_utils.c:6-54 | Each request makes its one call on the user table or the methods, and nothing else changes |
| `MonitorReq.TableTransits` | src/server/monitor/monitor_req.c:51-80 | The engine takes the transitions of the request table for every state and byte |
| `MonitorReq.HandledExactlyWhenFramed` | src/server/monitor/monitor_req.c:117-180 | A byte string is handed to the request handler on its last byte, with a type and arguments, exactly when it is the frame of them, their number is right and below 255 |
| `MonitorReq.FrameIsHandled` | src/server/monitor/monitor_req.c:117-180 | Every frame is decided once, on its terminator, exactly when it has fewer than 255 arguments; with more the parser writes outside its array |
| `MonitorClient.StatisticsRequestIsAnswered` | src/server/monitor/monitor_req_utils.c:41-43 | A request for the statistics changes nothing and is answered |
| `MonitorReq.ArgsOfFrame` | src/server/monitor/monitor_req.c:138-167 | Reading arguments is the inverse of framing them |
| `MonitorReq.MonitorReqParser.MonitorReqRead` | src/server/monitor/monitor_req.c:117-180 | The handler refines the step on values, and the stores change only on the terminator |
| `MonitorClient.WriteMonitorAuthRequest` | src/client/monitor_utils.c:26-54 | The login message is written, or nothing when a string is missing, empty, too long or does not fit |
| `MonitorClient.WriteMonitorUserAddRequest` | src/client/monitor_utils.c:65-99 | The frame of the three arguments is written, or nothing |
| `MonitorClient.WriteMonitorUserDeleteRequest` | src/client/monitor_utils.c:101-128 | The frame of the name is written, or nothing |
| `MonitorClient.WriteMonitorChangePassRequest` | src/client/monitor_utils.c:130-161 | The frame of name and password is written, or nothing, one byte of buffer early |
| `MonitorClient.WriteMonitorGetStatsRequest` | src/client/monitor_utils.c:163-170 | The frame without arguments is written, or nothing |
| `MonitorClient.WriteMonitorChangeAuthMethodsRequest` | src/client/monitor_utils.c:172-188 | The frame of the methods before the sentinel is written |
| `MonitorClient.LoginIsUnderstood` | src/server/monitor/monitor_auth.c:107-182 | The login a client writes makes the server check exactly that name and password |
| `MonitorClient.AddRequestCreatesUser` | src/server/monitor/monitor_req_utils.c:15-25 | The add request a client writes creates exactly that user |
| `MonitorClient.DeleteRequestRemovesUser` | src/server/monitor/monitor_req_utils.c:26-32 | The delete request a client writes removes exactly that user |
| `MonitorClient.ChangeRequestChangesPassword` | src/server/monitor/monitor_req_utils.c:33-40 | The password request a client writes changes exactly that password |
| `MonitorClient.MethodsRequestChangesMethods` | src/server/monitor/monitor_req_utils.c:44-48 | The list a client writes becomes the accepted list, exactly when every method is supported |
| `MonitorSession.StepKeepsInv` | src/server/include/active_monitor.h:53-66 | Every event finds a handler, and keeps what a management session needs unless it is one of two memory errors |
| `MonitorSession.NoRunAborts` | src/lib/stm/stm.c:25-73 | No event of any run of a management session reaches an abort of the engine, and it goes on exactly when the event is neither the 255th argument nor a failure before the first length |
| `MonitorSession.StepMakesCallbacks` | src/lib/stm/stm.c:25-73 | An event after which a management session goes on does to it and to the stores what the engine's callbacks do, in their order, departures included |
| `MonitorSession.OnlyAdminsPass` | src/server/monitor/monitor_auth.c:107-182 | An event opens the requests exactly when it completes an administrator's credentials, and changes no store |
| `MonitorSession.LoginAnswers` | src/server/monitor/monitor_auth.c:97-182 | Exactly which bytes the login is answered with in each case |
| `MonitorSession.FirstByteTells` | src/server/monitor/monitor_auth.c:151-172 | The first byte after complete credentials says whether an administrator has logged in |
| `MonitorSession.RequestAnswers` | src/server/monitor/monitor_req.c:117-190 | What each event does to a session that is logged in: the stores, the bytes sent, whether it goes on and what it waits for |
| `MonitorSession.WrongNumberIsRefused` | src/server/monitor/monitor_req.c:138-148 | An administrator's request with a wrong number of arguments changes nothing and ends the session without a reply |
| `MonitorSession.NobodyManagesWithoutAdmin` | src/server/include/active_monitor.h:53-66 | In every run, a session in MONITOR_REQ was logged in by an administrator earlier, on that session |
| `MonitorSession.StoresChangeOnceForAdmins` | src/server/monitor/monitor_req.c:117-190 | In every run a session changes the stores at most once, after an administrator's login on it |
| `MonitorSession.ClientIsServed` | src/server/include/active_monitor.h:53-66 | Login and request bytes, fed to a new session, take effect on the stores exactly for an administrator; the first byte sent says so, and the session waits to answer exactly when the request was carried out |
| `Stm.StateMachine.Init` | src/lib/stm/stm.c:10-23 | A table is refused exactly when its states are not in order or it starts at its end |
| `Stm.StateMachine.HandleFirst` | src/lib/stm/stm.c:25-33 | The first event arrives in the initial state, once |
| `Stm.StateMachine.Jump` | src/lib/stm/stm.c:35-50 | A move makes the departure and arrival callbacks in order, and none when the state stays |
| `Stm.StateMachine.Handler` | src/lib/stm/stm.c:52-73 | Exactly when an event aborts, and otherwise all callbacks it makes, in order |
| `Stm.StateMachine.HandlerClose` | src/lib/stm/stm.c:87-91 | Closing makes the departure callback of the current state |
| `Session.InterestsHaveHandlers` | src/server/include/client_utils.h:67-89 | Every interest a state comes with has a handler in its row, and the handler its parser, except in DONE |
| `Session.HandleIsReady` | src/server/include/client_utils.h:67-89 | Each handler leaves the interests, parser and destination that the state it returns comes with |
| `Session.StepKeepsInv` | src/lib/stm/stm.c:25-73 | From a session with the invariant an event aborts exactly in DONE, and otherwise keeps the invariant |
| `Session.StepMakesCallbacks` | src/lib/stm/stm.c:25-73 | An event of a session aborts exactly when the engine finds no handler, and otherwise does what the engine's callbacks do, in their order |
| `Session.AbortsExactlyInUnfinishedDone` | src/server/forwarding.c:81-88 | In every run an event aborts exactly in a DONE that was not freed, and then bytes are still buffered |
| `SessionAbort.AnswerAborts` | src/server/forwarding.c:81-88 | A run of a whole session, from its greeting on, that comes to an event on which the program aborts with the answer still buffered |
| `SessionAbort.RelayRunIsReached` | src/server/include/client_utils.h:67-89 | Every run of the relay that can be dispatched is the end of a run of a whole session |
| `Session.HelloOpens` | src/server/hello.c:124-183 | The greeting opens the session only when no authentication was offered and is among the first 128 accepted methods, or a scan for it left the array |
| `Session.AuthOpens` | src/server/auth.c:152-197 | The login opens the session only when the table has the credentials |
| `Session.NobodyPassesUnauthenticated` | src/server/include/client_utils.h:67-89 | In every run, a session in or past REQUEST_READ was let in earlier on that session, by an accepted greeting or a login, or by a scan outside the array, which needs a list of at least 128 |
| `Session.ForwardingStartsFresh` | src/server/request.c:569-635 | Forwarding starts with a destination, empty buffers and both descriptors waiting for input |
| `Session.ForwardingIsRelaying` | src/server/include/client_utils.h:67-89 | From then on every event of the session is an event of the relay, with its end |
| `Negotiation.GreetingIsAnswered` | src/server/hello.c:86-183 | The bytes of any greeting are answered with 5 and the choice, and lead to the request exactly when no authentication is chosen, otherwise to the login |
| `Negotiation.FirstBytesAreGreeting` | src/server/hello.c:86-166 | Any first bytes of a session take it where section 3 of RFC 1928 does: on with the greeting, to its end, or to the choice of a method |
| `Negotiation.ListGuardsExactlyInside` | src/server/auth_utils.c:39-53 | Whatever lies outside the array, a client offering only no authentication passes only when that is accepted, exactly for the lists whose scan for it stays inside |
| `Negotiation.LoginIsAnswered` | src/server/auth.c:105-197 | The bytes of any credentials are answered with 1 and 0 and lead to the request exactly when the table has them, and with 1 and 1 to the end of the session otherwise; with a field of 255 bytes the session keeps waiting |
| `Negotiation.OtherVersionEndsLogin` | src/server/auth.c:122-129 | A login of another version ends the session |
| `Negotiation.UnsentAnswerEnds` | src/server/hello.c:174-176 | An answer that cannot be sent whole ends the session |
| `Negotiation.FailedReadWaitsOrEnds` | src/server/hello.c:91-98 | A read without bytes leaves the session waiting when it is to be tried again, and ends it otherwise, always at the end of a request's input |
| `Negotiation.RequestDelivered` | src/server/request.c:237-383 | The chunks of a request lead the session where its outcome does, with exactly the address and port to connect to or the C string and port to look up, or leave it reading |
| `Negotiation.NegotiationFollowsRfcs` | src/server/include/client_utils.h:67-89 | From a new session to the connection: for all greeting, login and request bytes, in whatever chunks, who is let in, where the request leads, and what is looked up, with the exact conditions under which that is what the two RFCs say |
| `Destinations.Ipv4IsConnectedTo` | src/server/request.c:169-187 | A request for an IPv4 address has the session connect to exactly that address and port |
| `Destinations.Ipv6IsConnectedTo` | src/server/request.c:188-206 | A request for an IPv6 address has the session connect to exactly that address and port |
| `Destinations.NameIsLookedUp` | src/server/request.c:165-168 | A request for a name has its C string and port looked up, or is answered with status 4 |
| `Destinations.OthersAreRefused` | src/server/request.c:268-368 | Another version is answered with status 1, another command with 7, and another address type ends the session |
| `Destinations.ReplyDecides` | src/server/request.c:569-635 | The bytes of the answer to a request, and that a refusal ends the session and success starts forwarding |
| `Destinations.LookupEnds` | src/server/request.c:424-486 | A lookup goes on, ends the session, or has it connect to exactly the addresses found |
| `Destinations.EventsAreCalls` | src/server/request.c:488-567 | The events of a connecting session are the calls of its connection; it answers with success exactly when they succeed and errs exactly when they end otherwise |
| `Destinations.ResolvedAddressesAreTried` | src/server/request.c:488-567 | From the end of a lookup on, a session tries the addresses found in their order, each once, and ends in an error only after all of them or a failed query |
| `Destinations.RegistersAsSelector` | src/lib/selector/selector.c:322-360 | A descriptor is taken for a connection exactly when the selector can register it |
| `SessionRelay.EarlyStepsRelayNothing` | src/server/include/client_utils.h:67-89 | Until forwarding nothing is received for the relay, sent or buffered |
| `SessionRelay.SessionsDeliver` | src/server/forwarding.c:13-117 | At any point of any session what was sent to a side begins what came from the other; without an error the rest is buffered; a session done and freed has delivered all |
| `SessionRelay.SessionsStayAwake` | src/server/forwarding.c:13-117 | At any point of any session that forwards, a side whose input is open waits for what is owed to it, and for something |

## Left out

- Sockets, `accept`, `pselect`, signals, `fcntl`, `getsockname` and `getaddrinfo_a`: their results are inputs.
- Logging, argument parsing, both `main` functions, `passive_monitor.c`, `netutils.c`, `io_utils.c` and `stats.c`: plumbing that would add only easy members.
- SelectorRounds.RoundIsIteration: assumes that the handlers of other sessions leave the two descriptors alone, and sets apart a session left in DONE.
- Allocation always succeeds; null arguments, pointer ownership and the order of `free` are not modelled.
- Character classes: only `parser_no_classes` is used, and its table is taken as total over the bytes.
- MonitorReq.MonitorReqParser.MonitorReqRead: excludes the 255th argument, from which on the code writes outside its array; `FrameIsHandled` says when that happens, and a run of a management session ends with it.
- Request types beyond the last one: the table of argument counts is read past its end, and the request is refused in any case.
- MonitorClient.WriteMonitorChangeAuthMethodsRequest: assumes that the methods fit the buffer, which the encoder does not check.
- Selector.FdSelector.SelectorRegister: excludes a descriptor equal to the size of the table, for which the code writes past the table; `InitialSizeForSafety` says when there is none.
- Selector.FdSelector.SelectorUnregisterFd: excludes a descriptor that is valid but not below the size of the table, for which the code reads past it; with the size the server uses there is none.
- Selector.FdSelector.SelectorSetInterest: makes the same exclusion.
- Selector.FdSelector.Perform: is about a table of more than 1024 slots, as the server creates it.
- Selector.FdSelector.HandleIteration: is about the same table.
- A scan of the accepted methods outside the array finds a method there or does not; that it may never end is not modelled.
- Users.UserStore.UserCreate: assumes that what is copied stays inside the array of users, as it does for all strings but those that leave its last entry.
- Users.UserStore.UserChangePassword: assumes a password of at most 255 bytes, as its only caller gives; a longer one would overwrite the next entry.
- Users.ApplyRefinesRegistry: makes the same assumption about changes of a password.
- Users.StoreRefinesRegistry: makes the same assumption about changes of a password.
- ParserEngine.Parser.Feed: a transition on a character class is not modelled, as no parser of the program has one.
- HalfClose.HalfClosedSideIsNeverSentTo: takes the order of dispatch as a hypothesis, which `RoundsNeverSendToHalfClosed` does not.
- Relay.Client.ErrorHandler: has no reply, for the reason given below.
- UsersFile.ParseUser: reads characters as signed and positions as unbounded, and opening or closing the file is not modelled.
- The proxy's own address in an answer and the bytes of the statistics are inputs.
- An answer that is sent in part: only the ones sent whole are recorded.
- The reply in `error_handler`: it is entered in state ERROR, so that branch does not run on a move.
- `dns_lookup`, `request_write`, `hello_write`, `auth_write`, `monitor_req_write` and the arrival callbacks: modelled on values, inside the two session modules, so aliasing between them is not captured.
- The two session modules work on values; their handlers with loops are the methods of the other modules, proved equal to the functions used there.
- Arguments of a management request are a sequence of byte strings, not an array of pointers.
- Negotiation.NegotiationFollowsRfcs: the user table and the accepted methods stay the same from the first byte to the last; the theorems about runs let them change at every event.
- MonitorSession.ClientIsServed: no other session changes the stores in between; the theorems about runs let them.
- Session.ForwardingIsRelaying: assumes that `recv` reports no more data after the end of input, as SessionRelay does.
- Liveness: no claim that a session that waits ever gets an event.
- Blocking jobs and threads: the server never uses them.
