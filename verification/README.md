# Verified model of the sp2p protocol, tracker and client

sp2p lets users find servers of their networks through trackers (called nodes). A client sends
`ClientMessage`s and gets `NodeMessage`s back, both protocol buffers in a four-byte length frame.
The tracker keeps users, networks, servers, invitations and keys in five SQL tables and its
sessions in two maps. The client keeps its nodes and networks in a `Manager` that it saves and
loads. This project models these parts in Dafny and proves what they promise.

    dafny verify dfyconfig.toml

## What is modelled

**The wire codec** (`Wire`, `Messages`, `Codec`, `Sp2pProtocol`, `MessageNode`, `CodedStream`).
The generated classes are one template instantiated per message type, so the model is written
once over a `Schema` and instantiated with the descriptors of `NodeMessage`, `ClientMessage` and
all their parts. `Codec` holds the plain form: every tag goes through the switch, and
serialising is a function of the message value. `CodedStream` holds the parse loops as they are
generated, mutating a message and an input stream, with the chain of `ExpectTag` jumps;
`ExpectTag` and `ExpectAtEnd` answer nondeterministically where a buffer boundary may lie.
`MessageNode` holds message objects on the heap with their `_cached_size_`, has-bits, `ByteSize`
and both serialisers. Both imperative forms are proved against the plain one. `Completeness`
says which messages are accepted.

**Framing and the connection** (`Framing`, `Connections`). The incremental frame parser over its
buffer, and one request on a connection as a machine over the completions of its asynchronous
operations.

**The tracker** (`Statements`, `PsqlConnector`, `Sessions`, `Protocol`, `NodeMessageFactory`,
`Tracker`, `RequestHandler`, `Requests`, `Answers`, `TrackerRuns`, `Departures`, `Accounts`,
`Passwords`). Tables are maps from primary keys to rows; sub-selects may be NULL; inserts may break
a constraint; deletes cascade. `Tracker.Handle` is the transition relation; the classes reach it
through sequenced calls, and `Answers` says of every request, in terms of the rows alone, what is
answered and what it leaves. `Env` holds what comes from outside: the clock, random strings,
password hashing and checking, signing (empty on failure), the peer's address, and which database
calls fail.

**The client and both together** (`ClientTypes`, `Nodes`, `EndToEnd`, `TwoParty`, `Calls`). A client
session as a state machine, what each of its calls comes to at the tracker, the whole path from a
client's call through the bytes to the value of its promise, and any number of clients, strangers,
lost messages, timeouts and cleanings against one tracker.

**The client's store** (`Archive`, `Loads`, `Networks`, `Manager`). Node and network maps whose keys
compare by name, objects on the heap, and the archive as a sequence of tokens with counts as
decimal strings, read by `stoi` with its spaces, signs, trailing characters and range.

## Where the code departs from its documentation

The model follows the code.

- `cleanSome` is documented to clean the older sessions
  (`tracker/qmake_project/protocol_factory/abstractsessioncontroler.hpp:79`); its loop drops the
  younger ones, so it does what is documented only if all were stamped at the cutoff
  (`Sessions.CleanSomeAsDocumented`).
- `updateServer` returns from its update branch before the commit, so an existing server is never
  updated though the reply is OK (`TrackerRuns.UpdateServerStores`).
- `deleteServer` looks at the row count of a DELETE, which is zero, so STOP_SERVER reports a bad
  request even after it deleted (`TrackerRuns.FailureLeavesTables`).
- REMOVE_USER, meant to remove a user from a network, deletes the caller's account
  (`TrackerRuns.RemoveUserUnregisters`), so the named user is removed only if it is the caller or
  the network goes with its owner (`Departures.RemoveUserRemoves`).
- INVITE_USER asks neither for ownership nor for an existing sender (`TrackerRuns.AnyoneInvites`).
- REGISTER and SIGN_KEY write before they know whether signing succeeds
  (`TrackerRuns.FailureLeavesTables`).
- A server's lifetime is stored in milliseconds cut to 32 bits and cleaned against seconds, so
  whether it survives is a matter of the clock (`Departures.ServerSurvives`).
- UNREGISTER leaves the sessions of the account it deletes, and they become those of whoever
  registers the login next (`Accounts.CookieOutlivesAccount`).
- The client parses its whole buffer when a frame is complete, so it relies on one reply in flight
  (`Framing.Overrun`, `EndToEnd.PipelinedStatusIsLost`).
- The client's lists name the owner's login as e-mail address and a network's name as a server's
  user (`EndToEnd.NetworksRead`, `EndToEnd.ServerShown`).
- A call on a session the tracker no longer knows returns OTHER, because `getDefaultError` has no
  case for NOT_LOGGED (`Calls.SessionDead`).
- The seconds in the reply to UPDATE_SERVER are milliseconds (`Calls.UpdateServerCalled`).
- Removing a node leaves associations to it behind, and the next saved state cannot be loaded
  (`Archive.RemovedNodeReloads`).

`Departures`, `Accounts`, `Archive` and `TwoParty` hold inputs at which these show.

## Model

| member | source | states |
|---|---|---|
| Bytes.SignExtensionRoundTrip | sercli/src/sp2p_protocol.pb.cc:9346-9367 | a negative `int32` or enumeration value, sign-extended to 64 bits for the wire, comes back unchanged |
| Bytes.LittleEndianRoundTrip | sercli/src/parser.cpp:25-30 | the four length bytes written by the sender read back as the length |
| Wire.VarintRoundTrip | sercli/src/sp2p_protocol.pb.cc:9779-9784 | a varint of up to 64 bits reads back, whatever follows it ("Base 128 Varints") |
| Wire.ReadVarintExactly | sercli/src/sp2p_protocol.pb.cc:9786-9790 | what a varint is, minimal or not: seven-bit groups, the least significant first, up to the first byte without a top bit, which must be among the first ten; the low 64 bits count |
| Wire.TagRoundTrip | sercli/src/sp2p_protocol.pb.cc:9779-9781 | one- and two-byte tags, as of fields 1 and 16, read back |
| Wire.RecordRoundTrip | sercli/src/sp2p_protocol.pb.cc:9912-9921 | any record a reader can return, of any wire type, reads back with nothing of what follows consumed |
| Wire.RecordPrefix | sercli/src/sp2p_protocol.pb.cc:9779-9921 | reading a record never looks past its last byte |
| Wire.ReadAllOfWriteAll | sercli/src/sp2p_protocol.pb.cc:9779-9927 | a sequence of records written one after the other reads back as that sequence |
| Wire.ReadAllConcat | sercli/src/sp2p_protocol.pb.cc:9779-9927 | once `a` is accepted, `a + b` is accepted exactly when `b` is, and reads as the records of both |
| Messages.Merge | sercli/src/sp2p_protocol.pb.cc:10154-10188 | `MergeFrom` yields a message of the same type, field by field: scalars last-wins, sub-messages merged, lists and unknown fields concatenated |
| Messages.MergeEmpty | sercli/src/sp2p_protocol.pb.cc:10154-10188 | the cleared message is neutral for `MergeFrom` on both sides |
| Messages.MergeAssociative | sercli/src/sp2p_protocol.pb.cc:10154-10188 | `MergeFrom` is associative at every nesting level |
| Messages.PutCanonical | sercli/src/sp2p_protocol.pb.cc:9783-9921 | setting a declared field keeps a message one that a parser can produce |
| Sp2pProtocol.NodeMessageIsWf | proto_files/sp2p_protocol.proto:150-221 | the field numbers of `NodeMessage` and its parts are distinct, positive and below 2^29 |
| Sp2pProtocol.ClientMessageIsWf | proto_files/sp2p_protocol.proto:7-144 | the same for `ClientMessage`, fields 16 and 17 included |
| Sp2pProtocol.GeneratedConstants | sercli/src/sp2p_protocol.pb.cc:9783-9925 | the tag constants of the generated `ExpectTag` calls, the two-byte 130 among them, and the required-field mask 0x1b of `Network` are the ones the descriptors give |
| Sp2pProtocol.ClientConstants | sercli/src/sp2p_protocol.pb.cc:6166-6376 | the same for the tags of `ClientMessage` and of its parts with numbers |
| Sp2pProtocol.RequiredMasks | proto_files/sp2p_protocol.proto:29-221 | which fields of each message are required, as the generated `IsInitialized` masks have it |
| Codec.ParseIntoIsMerge | sercli/src/sp2p_protocol.pb.cc:9775-9927 | parsing into a message that already holds fields is parsing afresh and then `MergeFrom`, accepted in the same cases |
| Codec.ParseConcat | sercli/src/sp2p_protocol.pb.cc:10154-10188 | merge law: once `a` is accepted, `a + b` is accepted exactly when `b` is, and parses to the merge of the two, at every nesting level |
| Codec.ParseIntoCanonical | sercli/src/sp2p_protocol.pb.cc:9785-9795 | every message a parser produces has only unclaimed unknown fields, or out-of-range enumeration values kept sign-extended, at every level |
| Codec.ParseSerialized | sercli/src/sp2p_protocol.pb.cc:9929-9989 | parsing the serialisation gives the message back: nested, repeated, negative numbers, unknown fields, kept enumeration values |
| Codec.RoundTrip | sercli/src/sp2p_protocol.pb.cc:9929-9989 | and it does so exactly for the messages a parser can produce (if and only if) |
| Completeness.InitializedExactly | sercli/src/sp2p_protocol.pb.cc:10202-10230 | `IsInitialized` of a message holds if and only if no message reachable from it through a path of fields lacks a required one |
| Completeness.ParseExactly | sercli/src/parser.cpp:34-43 | bytes are accepted exactly when they are well-formed and nothing reachable in the message they hold lacks a required field |
| Completeness.SentIncomplete | sercli/src/parser.cpp:34-43 | the serialisation of a message comes back if nothing in it is missing and is refused otherwise |
| Completeness.EmptyReplyRefused | sercli/src/sp2p_protocol.pb.cc:10202-10203 | an empty reply parses to the empty message and is refused |
| Completeness.UnknownCodeRefused | sercli/src/sp2p_protocol.pb.cc:9785-9795 | a reply of just a response type is accepted if and only if the type is in the enumeration; 508 and all others are refused |
| Completeness.NamelessNetworkRefused | sercli/src/sp2p_protocol.pb.cc:8231-8237 | one network without a name, anywhere in a list, has the whole reply refused |
| CodedStream.ParseStep | sercli/src/sp2p_protocol.pb.cc:9779-9781 | reading one tag and dispatching on it is one step of the plain parse |
| CodedStream.ParseEnds | sercli/src/sp2p_protocol.pb.cc:9779-9781 | a plain parse that meets a bad or zero tag is refused |
| CodedStream.ExpectedTag | sercli/src/sp2p_protocol.pb.cc:9797-9805 | a tag `ExpectTag` recognises is one the switch would have dispatched to the same case |
| CodedStream.CodedInputStream.ReadVarint64 | sercli/src/sp2p_protocol.pb.cc:9786-9790 | the byte loop reads exactly the varint at the head of the input, or fails when there is none of at most ten groups |
| CodedStream.CodedInputStream.ReadTag | sercli/src/sp2p_protocol.pb.cc:9779-9781 | the next tag, zero at the end of the input or for a malformed tag, the two told apart by the legitimate-end flag |
| CodedStream.CodedInputStream.ReadString | sercli/src/sp2p_protocol.pb.cc:7085-7091 | a length-delimited string, refused when the length is negative as an `int` or runs past the limit |
| CodedStream.CodedInputStream.SkipField | sercli/src/sp2p_protocol.pb.cc:9914-9921 | an unclaimed field goes to the unknown field set whole |
| CodedStream.CodedInputStream.ExpectTag | sercli/src/sp2p_protocol.pb.cc:9797-9805 | may say no at a buffer boundary; when it says yes the tag was there and is consumed, when no nothing is |
| CodedStream.CodedInputStream.ExpectAtEnd | sercli/src/sp2p_protocol.pb.cc:9909-9910 | may say no at the end; when it says yes the limit has been reached |
| CodedStream.ParsedMessage.ReadMessage | sercli/src/sp2p_protocol.pb.cc:9802-9811 | a nested message is parsed in place behind a pushed limit it has to reach exactly |
| CodedStream.ParsedMessage.ReadField | sercli/src/sp2p_protocol.pb.cc:9783-9903 | each case does what the plain parse does with the field, in place, and leaves the input behind it |
| CodedStream.ParsedMessage.FastPath | sercli/src/sp2p_protocol.pb.cc:9802-9910 | the `goto` chain from any case on: what remains to be parsed is always what the plain parse has left |
| CodedStream.ParsedMessage.Dispatch | sercli/src/sp2p_protocol.pb.cc:9781-9923 | the switch with its `default` case: the same, and a stop only at a legitimate end |
| CodedStream.ParsedMessage.MergePartialFromCodedStream | sercli/src/sp2p_protocol.pb.cc:9775-9927 | fast path refines plain loop: whatever `ExpectTag` and `ExpectAtEnd` answer, exactly the same inputs are accepted with exactly the same message |
| CodedStream.ParsedMessage.ParseFromIstream | sercli/src/parser.cpp:34-38 | clears, parses all of the input and accepts exactly what the plain `Parse` does, whose acceptance `Completeness.ParseExactly` states |
| CodedStream.ParsedMessage.MergeFrom | sercli/src/sp2p_protocol.pb.cc:10154-10188 | member by member in place, the result is the merge of the two messages |
| MessageNodes.RecordSize | sercli/src/sp2p_protocol.pb.cc:10131-10135 | the computed size of an unknown field is its encoded length |
| MessageNodes.MessageNode.SkippedGroup | sercli/src/sp2p_protocol.pb.cc:10062-10066 | a group of has-bits that tests zero holds no field with anything to size, nor any object to visit |
| MessageNodes.MessageNode.SingularSize | sercli/src/sp2p_protocol.pb.cc:10062-10124 | the eight-bit group tests never skip a present field: the sum is the encoded length of all singular fields |
| MessageNodes.MessageNode.RepeatedSize | sercli/src/sp2p_protocol.pb.cc:8179-8199 | the sum over repeated sub-messages is their encoded length, each sized on the way |
| MessageNodes.MessageNode.ByteSize | sercli/src/sp2p_protocol.pb.cc:10062-10140 | returns the encoded length and leaves every visited node with a `_cached_size_` equal to its own encoded length |
| MessageNodes.MessageNode.SerializeWithCachedSizes | sercli/src/sp2p_protocol.pb.cc:9929-9989 | with sizes cached, the stream form appends exactly the message's encoding, nested lengths taken from the caches |
| MessageNodes.MessageNode.SerializeWithCachedSizesToArray | sercli/src/sp2p_protocol.pb.cc:9991-10060 | the array form writes those same bytes, as many as `ByteSize` said, and touches nothing else |
| Framing.WriteFramed | tracker/qmake_project/response.cpp:15-25 | the writer emits the four length bytes and then the encoding whose length they hold |
| Framing.NodeResponseParser.Reset | sercli/src/parser.cpp:8-12 | the parser is in its initial state: empty buffer, size -1 |
| Framing.NodeResponseParser.Parse | sercli/src/parser.cpp:14-54 | does what one feeding of the abstract parser does; GOOD leaves exactly the parsed message in the object it was given, INDETERMINATE leaves that object alone |
| Framing.FeedPrefix | sercli/src/parser.cpp:25-51 | inside a frame of any body: waiting on every proper prefix, and on the last byte the verdict of the plain parse on the body, the parser back in its initial state |
| Framing.ChunkedFrame | sercli/src/parser.cpp:14-54 | however a frame of any body is cut, INDETERMINATE until the last chunk, then GOOD or BAD as the plain parse of the body has it, and ready for the next |
| Framing.ChunkedReply | sercli/src/parser.cpp:14-54 | however a framed reply is cut, INDETERMINATE until the last chunk, then GOOD with exactly the message sent, back in the initial state |
| Framing.ChunkedReplies | sercli/src/parser.cpp:14-54 | the same for any number of replies, no chunk crossing a boundary |
| Framing.Overrun | sercli/src/parser.cpp:34-38 | exact outcome when bytes after the reply arrive with its end: they are merged into it, or it is refused |
| Framing.PipelinedRepliesAreLost | sercli/src/parser.cpp:32-43 | a reply followed in the same chunk by any frame of three bytes is refused |
| Connections.Connection.SendHandler | sercli/src/connection.cpp:251-265 | a failed write resolves the promise with an exception, a good one starts the reading |
| Connections.Connection.ReadCompleted | sercli/src/connection.cpp:213-248 | a completed read acts on parser, promise and response objects as one step of the machine; earlier objects stay in place |
| Connections.RunsAreConsistent | sercli/src/connection.cpp:162-274 | invariant of every run: resolved once exactly when no operation is left, earlier response objects as allocated |
| Connections.ResolvedOnce | sercli/src/connection.cpp:162-274 | the promise is resolved exactly once by the end of a run: with an exception if and only if the last completion failed or its data was refused, with a value if and only if the parser said GOOD on the object of the last read |
| Connections.FrameDelivered | sercli/src/connection.cpp:214-274 | a frame of any body, cut in any way, ends in the message in it or in an exception, after one read per piece |
| Connections.ReplyDelivered | sercli/src/connection.cpp:214-274 | a reply cut in any way is delivered to the promise after one read per piece |
| Protocol.Assembled | sercli/src/sp2p_protocol.pb.cc:10202-10230 | a message whose slots fit their fields, every required one filled, is initialised and of the kind that survives the wire |
| Protocol.ReplyPartIsComplete | tracker/qmake_project/proto/nodemessagefactory.cpp:20-175 | the part of every reply, for any list contents, is complete |
| Protocol.ReplyMessage | tracker/qmake_project/proto/nodemessagefactory.cpp:10-175 | the message of a reply is complete and carries its response type and its part in the right fields |
| Protocol.RequestMessage | sercli/src/message_factory.cpp:17-295 | the message of a request is complete and carries its request type and its part in the right fields |
| Protocol.ReadRequestOfMessage | tracker/qmake_project/requesthandler.cpp:25-138 | what the handlers read out of a request message is the request its builder was given, all sixteen types |
| Protocol.RequestArrives | tracker/qmake_project/requesthandler.cpp:25-40 | and it still is after serialisation and parsing |
| Requests.ReadExactly | tracker/qmake_project/requesthandler.cpp:25-138 | of any message that passed the parser: the handlers find it incomplete exactly when the part its type calls for is missing, and otherwise act on what that part says, field by field |
| NodeMessageFactory.ErrorMessage | tracker/qmake_project/proto/nodemessagefactory.cpp:10-18 | builds the message of a bare status |
| NodeMessageFactory.RegisterResponse | tracker/qmake_project/proto/nodemessagefactory.cpp:20-30 | builds the message of a registration reply |
| NodeMessageFactory.LoginResponse | tracker/qmake_project/proto/nodemessagefactory.cpp:44-55 | builds the message of a login reply |
| NodeMessageFactory.UserInfoResponse | tracker/qmake_project/proto/nodemessagefactory.cpp:57-67 | builds the message of a user-info reply |
| NodeMessageFactory.UpdateServerResponse | tracker/qmake_project/proto/nodemessagefactory.cpp:69-80 | builds the message of a server-update reply |
| NodeMessageFactory.SignKeyResponse | tracker/qmake_project/proto/nodemessagefactory.cpp:82-93 | builds the message of a sign-key reply |
| NodeMessageFactory.ListNetworksResponse | tracker/qmake_project/proto/nodemessagefactory.cpp:95-125 | the loop builds the message that lists every network, in order |
| NodeMessageFactory.ListMyNetworksResponse | tracker/qmake_project/proto/nodemessagefactory.cpp:127-156 | the same into the other list field |
| NodeMessageFactory.ListServersResponse | tracker/qmake_project/proto/nodemessagefactory.cpp:158-175 | the loop lists every server, in order |
| Statements.UserId | tracker/qmake_project/db/psqlconnector.cpp:188-194 | the sub-select by login: a row with that login, NULL exactly when there is none |
| Statements.NetworkId | tracker/qmake_project/db/psqlconnector.cpp:188-194 | the sub-select by network name, likewise |
| Statements.LinkId | tracker/qmake_project/db/psqlconnector.cpp:425-430 | the row of a user in a network; NULL matches nothing |
| Statements.DropUserResolves | database/db_init.sql:7-41 | after the cascade of a deleted user no foreign key dangles, and the rest is as it was |
| Statements.DropUserIsGreatest | database/db_init.sql:7-41 | the cascade removes no more than it must: it leaves the greatest sub-database without that user whose foreign keys resolve |
| Statements.DropNetworkIsExact | database/db_init.sql:18-41 | likewise for a deleted network |
| Statements.AddKeyKeepsIntegrity | tracker/qmake_project/db/psqlconnector.cpp:188-208 | unique pairs and foreign keys survive the insert, whether it succeeds or fails |
| Statements.CreateInvitationKeepsIntegrity | tracker/qmake_project/db/psqlconnector.cpp:210-229 | likewise |
| Statements.CreateNetworkKeepsIntegrity | tracker/qmake_project/db/psqlconnector.cpp:252-276 | likewise, with unique names |
| Statements.UserStatementsKeepIntegrity | tracker/qmake_project/db/psqlconnector.cpp:38-54 | unique logins survive creation of a user and a change of password |
| Statements.RemoveUserKeepsIntegrity | tracker/qmake_project/db/psqlconnector.cpp:56-72 | integrity survives the cascade |
| Statements.DeleteNetworkKeepsIntegrity | tracker/qmake_project/db/psqlconnector.cpp:278-296 | integrity survives the cascade |
| Statements.UpdateServerKeepsIntegrity | tracker/qmake_project/db/psqlconnector.cpp:419-453 | integrity survives both branches |
| Statements.DeleteServerKeepsIntegrity | tracker/qmake_project/db/psqlconnector.cpp:455-475 | integrity survives |
| Statements.CleanServersKeepsIntegrity | database/db_init.sql:45-55 | integrity survives the clean-up |
| Statements.AllNetworksExact | tracker/qmake_project/db/psqlconnector.cpp:298-327 | a user is shown exactly the networks that are visible, its own, or those it is invited to, each once |
| Statements.UserNetworksExact | tracker/qmake_project/db/psqlconnector.cpp:329-356 | the list of own networks has exactly those the user owns, each once |
| Statements.ServersExact | tracker/qmake_project/db/psqlconnector.cpp:477-500 | the list of servers has exactly those of the network |
| PsqlConnectors.PsqlConnector.FindUser | tracker/qmake_project/db/psqlconnector.cpp:130-147 | the row scan finds what the sub-select by login selects |
| PsqlConnectors.PsqlConnector.CreateUser | tracker/qmake_project/db/psqlconnector.cpp:38-54 | inserts the row or reports a duplicate or a failure, with integrity kept |
| PsqlConnectors.PsqlConnector.CascadeUser | database/db_init.sql:7-41 | deleting network by network reaches exactly the cascade of the user |
| PsqlConnectors.PsqlConnector.RemoveUser | tracker/qmake_project/db/psqlconnector.cpp:56-72 | removes the user's row with its cascade; OK also when there was no such user |
| PsqlConnectors.PsqlConnector.ChangePassword | tracker/qmake_project/db/psqlconnector.cpp:111-128 | replaces the hash of that login; OK also when there was no such user |
| PsqlConnectors.PsqlConnector.UserExists | tracker/qmake_project/db/psqlconnector.cpp:130-147 | whether the login has a row; no on failure |
| PsqlConnectors.PsqlConnector.GetPassHash | tracker/qmake_project/db/psqlconnector.cpp:149-166 | the stored hash, empty when there is none |
| PsqlConnectors.PsqlConnector.GetUserInfo | tracker/qmake_project/db/psqlconnector.cpp:168-186 | the stored key, empty when there is none |
| PsqlConnectors.PsqlConnector.AddKey | tracker/qmake_project/db/psqlconnector.cpp:188-208 | inserts the key; NULL sub-selects and duplicates leave the tables alone |
| PsqlConnectors.PsqlConnector.CreateInvitation | tracker/qmake_project/db/psqlconnector.cpp:210-229 | inserts the invitation; NULL sub-selects and duplicates leave the tables alone |
| PsqlConnectors.PsqlConnector.CreateNetwork | tracker/qmake_project/db/psqlconnector.cpp:252-276 | inserts the network for the owner; an unknown owner or a taken name leave the tables alone |
| PsqlConnectors.PsqlConnector.DeleteNetwork | tracker/qmake_project/db/psqlconnector.cpp:278-296 | deletes the owner's network with its cascade, or reports that nothing was permitted |
| PsqlConnectors.PsqlConnector.CanSeeNetwork | tracker/qmake_project/db/psqlconnector.cpp:379-397 | public or owned |
| PsqlConnectors.PsqlConnector.CanAddServer | tracker/qmake_project/db/psqlconnector.cpp:399-417 | participable or owned |
| PsqlConnectors.PsqlConnector.GetAllNetworks | tracker/qmake_project/db/psqlconnector.cpp:298-327 | the loop over the rows returns exactly the listed networks |
| PsqlConnectors.PsqlConnector.GetUserNetworks | tracker/qmake_project/db/psqlconnector.cpp:329-356 | the loop returns exactly the user's own networks |
| PsqlConnectors.PsqlConnector.UpdateServer | tracker/qmake_project/db/psqlconnector.cpp:419-453 | the update branch is rolled back, the insert branch is kept |
| PsqlConnectors.PsqlConnector.DeleteServer | tracker/qmake_project/db/psqlconnector.cpp:455-475 | deletes the row and reports NOT_FOUND all the same |
| PsqlConnectors.PsqlConnector.GetServers | tracker/qmake_project/db/psqlconnector.cpp:477-500 | the loop returns every server of the network |
| PsqlConnectors.PsqlConnector.CleanServers | tracker/qmake_project/db/psqlconnector.cpp:502-516 | the loop drops exactly the servers whose ttl lies before the cutoff |
| Sessions.SessionControler.IsLogged | tracker/qmake_project/sessioncontroler.cpp:33-39 | whether the one map holds the cookie |
| Sessions.SessionControler.Login | tracker/qmake_project/sessioncontroler.cpp:41-49 | both maps together act as one map from cookie to login and time |
| Sessions.SessionControler.Logout | tracker/qmake_project/sessioncontroler.cpp:51-67 | drops the cookie from the one map, and says whether it was there |
| Sessions.SessionControler.GetLogin | tracker/qmake_project/sessioncontroler.cpp:69-78 | the `at` never fails: the login of the session, or the empty string |
| Sessions.SessionControler.Refresh | tracker/qmake_project/sessioncontroler.cpp:80-87 | restamps an existing session and creates none |
| Sessions.SessionControler.CleanAll | tracker/qmake_project/sessioncontroler.cpp:89-95 | empties the one map |
| Sessions.SessionControler.CleanSome | tracker/qmake_project/sessioncontroler.cpp:97-108 | the erase loop leaves exactly the sessions not younger than the cutoff |
| Sessions.CleanSomeAsDocumented | tracker/qmake_project/sessioncontroler.cpp:97-108 | it does what is documented, dropping the older ones, if and only if every session was stamped exactly at the cutoff |
| Sessions.CleanSomeDropsTheFresh | tracker/qmake_project/sessioncontroler.cpp:100-106 | a fresh session is dropped and an expired one stays |
| Tracker.RepliesAreWellTyped | tracker/qmake_project/requesthandler.cpp:25-138 | every reply has a response type of the protocol, and an OK to LOGIN carries the cookie of a session of that user |
| Answers.RegisterAnswered | tracker/qmake_project/requesthandler.cpp:146-186 | what REGISTER answers in each case and does to the rows: one new users row with the hash of that password, kept even when signing fails |
| Answers.LoginAnswered | tracker/qmake_project/requesthandler.cpp:220-239 | LOGIN is answered OK exactly if the check accepts the stored hash (the empty one without a row), and opens that session and no other |
| Answers.LoginJudged | tracker/qmake_project/db/psqlconnector.cpp:149-166 | for every row of the login, unless its lookup fails: LOGIN is answered OK if and only if the check accepts the hash in that row |
| Answers.LogoutAnswered | tracker/qmake_project/sessioncontroler.cpp:51-67 | after LOGOUT there is no session under the cookie, and every other one is as it was |
| Answers.IncompleteAnswered | tracker/qmake_project/requesthandler.cpp:146-186 | a request without its part is refused and changes nothing |
| Answers.NotLiveAnswered | tracker/qmake_project/requesthandler.cpp:188-218 | without a live session a request is answered NOT_LOGGED and changes nothing |
| Answers.UnregisterAnswered | tracker/qmake_project/db/psqlconnector.cpp:56-72 | OK unless the write fails, and then the tables are the greatest part of those before without that user whose references resolve |
| Answers.RemoveUserAnswered | tracker/qmake_project/requesthandler.cpp:503-531 | the same of the caller of REMOVE_USER, who is also logged out |
| Answers.ChangePasswordAnswered | tracker/qmake_project/requesthandler.cpp:701-742 | BAD_CREDENTIALS unless the old password is accepted; an OK stores the hash of the new one in the user's row |
| Answers.CreateNetworkAnswered | tracker/qmake_project/requesthandler.cpp:345-403 | each answer of CREATE_NETWORK; an OK adds one row with exactly the flags, address and protocol asked for, and the owner's invitation unless that fails |
| Answers.DeleteNetworkAnswered | tracker/qmake_project/db/psqlconnector.cpp:278-296 | OK exactly to the owner of a network of that name, and then the tables are the greatest part of those before without it whose references resolve |
| Answers.InviteUserAnswered | tracker/qmake_project/requesthandler.cpp:447-501 | each answer of INVITE_USER; an OK adds exactly the invitation of that user to that network |
| Answers.UpdateServerAnswered | tracker/qmake_project/requesthandler.cpp:571-622 | each answer of UPDATE_SERVER; OK exactly with a participable or own network, a stored row exactly when there was none |
| Answers.StopServerAnswered | tracker/qmake_project/db/psqlconnector.cpp:455-475 | STOP_SERVER deletes exactly the row of the caller in that network, and its answers |
| Answers.SignKeyAnswered | tracker/qmake_project/requesthandler.cpp:662-699 | each answer of SIGN_KEY; the key is stored exactly when the pair is new, also when it is empty |
| Answers.UserInfoAnswered | tracker/qmake_project/requesthandler.cpp:533-569 | each answer of USER_INFO; an OK carries the key in the row of that user and network, or the empty one |
| Answers.ListNetworksAnswered | tracker/qmake_project/requesthandler.cpp:256-279 | the reply lists exactly the rows that are visible, the caller's own, or those it is invited to, with their fields, each name once |
| Answers.ListMyNetworksAnswered | tracker/qmake_project/requesthandler.cpp:281-302 | the reply lists exactly the rows the caller owns, each name once |
| Answers.ListServersAnswered | tracker/qmake_project/requesthandler.cpp:304-343 | OK exactly for a public or own network; the reply has each server as often as it has rows in the network of that name |
| Answers.ServersCleaned | tracker/qmake_project/db/psqlconnector.cpp:502-520 | a clean-up leaves exactly the servers whose ttl is not before the cutoff and touches no other table |
| RequestHandlers.RequestHandler.HandleRequest | tracker/qmake_project/requesthandler.cpp:25-138 | the handlers, over connector and session store in sequence, make exactly one transition of the tracker and keep integrity |
| RequestHandlers.RequestHandler.Register | tracker/qmake_project/requesthandler.cpp:146-186 | handleRegister: the user is created before the key is signed |
| RequestHandlers.RequestHandler.Login | tracker/qmake_project/requesthandler.cpp:220-239 | handleLogin: a session only after the password check |
| RequestHandlers.RequestHandler.Logged | tracker/qmake_project/requesthandler.cpp:256-742 | the handlers behind the session check |
| RequestHandlers.RequestHandler.CreateNetwork | tracker/qmake_project/requesthandler.cpp:345-403 | handleCreate_network: the owner's invitation follows the insert, its outcome ignored |
| RequestHandlers.RequestHandler.AboutNetwork | tracker/qmake_project/requesthandler.cpp:304-660 | the handlers that first test that a network, or a user, exists |
| TrackerRuns.StepIntegrity | tracker/qmake_project/requesthandler.cpp:25-138 | one request, or one cleaning, keeps the tables' integrity |
| TrackerRuns.RunIntegrity | database/db_init.sql:1-41 | after any run, whatever fails: logins, network names and (user, network) pairs are unique and every foreign key resolves |
| TrackerRuns.StepOwnership | tracker/qmake_project/db/psqlconnector.cpp:278-296 | a step changes no network's row and removes one only for its owner's session |
| TrackerRuns.RunOwnership | tracker/qmake_project/requesthandler.cpp:188-218 | over every run a network never changes owner or flags, and disappears only in a DELETE_NETWORK, UNREGISTER or REMOVE_USER step of its owner |
| TrackerRuns.NewNetworkInvited | tracker/qmake_project/requesthandler.cpp:382-399 | after a CREATE_NETWORK all owners are invited if and only if the second statement did not fail |
| TrackerRuns.StepOwnersInvited | tracker/qmake_project/requesthandler.cpp:382-399 | a step keeps every owner invited if and only if it does not lose that statement |
| TrackerRuns.RunOwnersInvited | tracker/qmake_project/requesthandler.cpp:345-403 | over every run that loses none, every network's owner holds an invitation to it, cascades included |
| TrackerRuns.ReachableTables | database/db_init.sql:1-41 | from empty tables, every reachable state has integrity, and invited owners if no invitation was lost |
| TrackerRuns.StaleSessionsCannotWrite | tracker/qmake_project/db/psqlconnector.cpp:188-208 | a request through a session whose login has no users row leaves all five tables alone, INVITE_USER apart |
| TrackerRuns.AnyoneInvites | tracker/qmake_project/requesthandler.cpp:447-501 | INVITE_USER writes through any session, stale or not, exactly when user and network exist and are not yet linked and none of its three database calls fails |
| TrackerRuns.FailureLeavesTables | tracker/qmake_project/requesthandler.cpp:146-741 | a reply other than OK goes with changed tables if and only if it is a REGISTER or SIGN_KEY whose signing failed, or a STOP_SERVER that deleted; STOP_SERVER is never answered OK |
| TrackerRuns.UpdateServerStores | tracker/qmake_project/db/psqlconnector.cpp:419-453 | an OK to UPDATE_SERVER is true of the tables if and only if there was no row before, or one with the same data |
| TrackerRuns.RemoveUserUnregisters | tracker/qmake_project/requesthandler.cpp:503-531 | REMOVE_USER ignores both names and deletes the caller's own account, as UNREGISTER does |
| Departures.RemoveUserRemoves | proto_files/sp2p_protocol.proto:19 | documented as "Remove user from network": after an OK the named user is no longer invited if and only if it was not before, or is the session's own user, or the session's account owned the network |
| Departures.RemoveUserLeavesTheNamed | tracker/qmake_project/requesthandler.cpp:503-531 | a REMOVE_USER answered OK after which the named user is still invited |
| Departures.UpdateServerForgets | tracker/qmake_project/db/psqlconnector.cpp:425-434 | an UPDATE_SERVER answered OK after which the old port is still stored |
| Departures.StopServerDeniesIt | tracker/qmake_project/db/psqlconnector.cpp:455-475 | a STOP_SERVER that deletes the server and is answered BAD_REQUEST |
| Departures.RegisterStays | tracker/qmake_project/requesthandler.cpp:160-179 | a REGISTER answered BAD_REQUEST after which the user exists |
| Departures.SignKeyStoresNothing | tracker/qmake_project/requesthandler.cpp:662-699 | a SIGN_KEY answered BAD_REQUEST after which an empty key is stored |
| Departures.ServerSurvives | tracker/qmake_project/requesthandler.cpp:602-603 | a server just stored survives the next cleaning if and only if the milliseconds of its lifetime, cut to 32 bits, are not below the cutoff in seconds |
| Departures.LifetimesByChance | database/db_init.sql:45-53 | one server goes in the second it was stored, another outlives its half hour by four years |
| Accounts.StepAccount | database/db_init.sql:1-5 | only a successful REGISTER of a login, or an UNREGISTER or REMOVE_USER through one of its sessions, changes whose account it is |
| Accounts.RunAccount | database/db_init.sql:1-5 | over every run, a login has another account than at the start if and only if it was registered on the way and not deleted since |
| Accounts.RunSession | tracker/qmake_project/sessioncontroler.cpp:33-108 | a session stays as it is while no step logs it out, cleans it or draws its cookie again |
| Accounts.CookieOutlivesAccount | tracker/qmake_project/requesthandler.cpp:188-218 | UNREGISTER leaves sessions: a cookie acts for another account if and only if its login was registered anew and not deleted since |
| Accounts.StrangerInherits | tracker/qmake_project/requesthandler.cpp:199-210 | two steps after which an old cookie is a session of somebody else's account |
| Passwords.StepPassword | tracker/qmake_project/requesthandler.cpp:701-742 | a step that sets a password stores its hash, and one that does not touch the account leaves the stored one |
| Passwords.RunPassword | tracker/qmake_project/db/psqlconnector.cpp:111-128 | over every run without such a step the stored hash stays |
| Passwords.LoginAfterPassword | tracker/qmake_project/requesthandler.cpp:220-239 | from a REGISTER that created the user, or a CHANGE_PASSWORD answered OK, up to the next step that touches the account, LOGIN is answered OK if and only if the check accepts the hash of that step's password |
| Nodes.Cookied | sercli/src/message_factory.cpp:32-295 | every request but LOGIN and REGISTER carries the session's cookie |
| Nodes.Node.SetUser | sercli/src/node.cpp:75-83 | refused on an active node; otherwise session, keys and certificates are forgotten with the old user, the node's own certificates excepted |
| Nodes.Node.SetNewDescription | sercli/src/node.cpp:101-108 | refused on an active node |
| Nodes.Node.BeforeMessage | sercli/src/node.cpp:114-125 | NOT_LOGGED before anything else; then a connection, or its error |
| Nodes.Node.LogIn | sercli/src/node.cpp:127-182 | the session after a login is the one the client's transition function gives, for every reply and every failure |
| Nodes.Node.LogOut | sercli/src/node.cpp:185-224 | likewise: OK forgets the cookie, NOT_LOGGED counts as success |
| Nodes.Node.RegisterUser | sercli/src/node.cpp:226-323 | likewise for a registration: refused without a private key, and both certificates kept if they decode |
| Nodes.Node.SignKey | sercli/src/node.cpp:799-875 | likewise: refused without a private key, and the certificate kept under its network |
| Nodes.Node.Perform | sercli/src/node.cpp:325-361 | likewise for the operations that share one response switch |
| Nodes.Node.GetNetworks | sercli/src/node.cpp:441-543 | the loop returns a description for every network of the reply, in order |
| Nodes.Node.GetServersList | sercli/src/node.cpp:545-595 | the loop returns a description for every server of the reply, in order |
| Nodes.Node.UpdateServer | sercli/src/node.cpp:671-713 | as `Perform`, and returns the seconds of an OK, zero otherwise |
| Nodes.Node.GetUserInfo | sercli/src/node.cpp:363-403 | as `Perform`, and of an OK returns only the name asked for |
| EndToEnd.ReplyTo | tracker/qmake_project/requesthandler.cpp:25-138 | reply decodability: whatever the request and whatever fails, the tracker's answer is a complete message |
| EndToEnd.RepliesDecode | sercli/src/sp2p_protocol.pb.cc:10202-10230 | and the client decodes it to what was sent |
| EndToEnd.ExchangeDelivers | sercli/src/connection.cpp:163-274 | a request built by a client is handled as it was meant, and the handler's reply, cut in any way, reaches the client's promise exactly, once |
| EndToEnd.StatusIsThreeBytes | tracker/qmake_project/proto/nodemessagefactory.cpp:10-18 | every reply that is only a response type is three bytes long |
| EndToEnd.PipelinedStatusIsLost | sercli/src/parser.cpp:32-43 | a reply with a bare status behind it in the same chunk is refused |
| EndToEnd.NetworksRead | sercli/src/message_factory.cpp:297-325 | the client's descriptions of a list reply: the e-mail address shown is the network's if and only if that equals the owner's login |
| EndToEnd.ServersRead | sercli/src/message_factory.cpp:327-336 | in place of a server's user the client reads the network's name |
| EndToEnd.ServerShown | sercli/src/message_factory.cpp:330-334 | the user shown for a server is its user if and only if that login is the network's name |
| Calls.CallIsThreeSteps | sercli/src/node.cpp:325-361 | a call, its handling and the arrival of its reply are three steps of the machine of `TwoParty` |
| Calls.NotSent | sercli/src/node.cpp:114-125 | an operation of a client that is not logged, a second login and a second registration reach nobody |
| Calls.CallFails | sercli/src/node.cpp:114-147 | exactly what is left, and returned, when there is no connection, no private key, or sending fails |
| Calls.SessionDead | sercli/src/node.cpp:346-351 | a call on a session the tracker does not know logs the client out, changes nothing else and returns OTHER |
| Calls.LogInCalled | sercli/src/node.cpp:127-182 | accepted exactly if the check accepts the password the client holds for the login it holds; then both sides have the session under the drawn cookie |
| Calls.LogOutCalled | sercli/src/node.cpp:185-224 | never fails, and afterwards neither side has the session |
| Calls.RegisterUserCalled | sercli/src/node.cpp:226-323 | the row and the certificates kept, and the error, in each case |
| Calls.ChangePasswordCalled | sercli/src/node.cpp:325-361 | succeeds exactly if the password the client holds is accepted and the write succeeds; afterwards the client holds the new one and the tracker its hash |
| Calls.RegisterNetworkCalled | sercli/src/node.cpp:597-631 | the row has the flags, e-mail and protocol of the description; and the error in each case |
| Calls.DeleteNetworkCalled | sercli/src/node.cpp:633-669 | succeeds exactly for the owner, and removes exactly the network named, with what refers to it |
| Calls.InviteUserCalled | sercli/src/node.cpp:405-439 | success leaves exactly that user newly invited to the network named; and the error in each case |
| Calls.GetUserInfoCalled | sercli/src/node.cpp:363-403 | succeeds exactly if the user and the network named exist |
| Calls.UpdateServerCalled | sercli/src/node.cpp:671-713 | the row stored for the network named and the port; the 1800000 the client reads as seconds are milliseconds |
| Calls.StopServerCalled | sercli/src/node.cpp:763-797 | deletes the server in the network named and returns BAD_REQUEST all the same |
| Calls.SignKeyCalled | sercli/src/node.cpp:799-875 | the certificate kept under the name of the network is the signed key the tracker stores |
| Calls.NetworksListed | sercli/src/node.cpp:441-543 | both lists: exactly the rows the user is shown, or owns, as descriptions, each name once |
| Calls.ServersListed | sercli/src/node.cpp:545-595 | an address for each server of the network named, for those who may see it, with the network's name in the place of the user |
| TwoParty.SessionsAfter | tracker/qmake_project/requesthandler.cpp:220-254 | a request adds a session only by an accepted LOGIN, for the user it names, and alters no other |
| TwoParty.ReplyRead | tracker/qmake_project/proto/nodemessagefactory.cpp:44-55 | the client reads out of a reply the response type and the cookie the tracker put in |
| TwoParty.StepConsistent | sercli/src/node.cpp:114-224 | every step with a fresh cookie keeps clients, sessions and messages under way consistent |
| TwoParty.RunConsistent | sercli/src/node.cpp:114-224 | so does every run |
| TwoParty.RunIdentity | sercli/src/node.cpp:114-224 | in every reachable state of any number of clients, strangers and cleanings: a logged client's cookie, if the tracker holds a session for it, is that client's user's |
| TwoParty.RepeatedCookie | tracker/qmake_project/sessioncontroler.cpp:41-49 | an accepted login keeps identity if and only if every client already logged with the cookie it draws is the user who logs in |
| TwoParty.RepeatedCookieBreaks | tracker/qmake_project/sessioncontroler.cpp:44-46 | a consistent state in which a repeated cookie breaks identity |
| TwoParty.AnsweredWasHandled | sercli/src/connection.cpp:214-274 | a reply under way to a client was made by one earlier step from that client's own request |
| TwoParty.NotLoggedExactly | tracker/qmake_project/requesthandler.cpp:241-266 | NOT_LOGGED is answered exactly to a cookie without a session, or for the user of the empty name |
| TwoParty.CookiesKeepOwners | tracker/qmake_project/sessioncontroler.cpp:41-49 | a cookie never changes hands |
| TwoParty.ExchangeFoundLiveSession | sercli/src/node.cpp:325-361 | a completed cookie-carrying exchange leaves the client logged if and only if its session was live when it was handled, and then the tracker acted for that very user |
| TwoParty.LoginIsAnswered | sercli/src/node.cpp:141-165 | no reachable login ends in BAD_SERVER_RESPONSE: an OK always carries a cookie drawn for the user who asked |
| Archive.CountRoundTrip | sercli/src/manager.cpp:171-212 | a printed count reads back, unless it does not fit an `int` |
| Archive.LoadClosed | sercli/src/manager.cpp:203-248 | whatever the archive holds, and even when loading throws midway: keys are descriptions by name and every association leads into `nodes_map` |
| Loads.StoiExactly | sercli/src/manager.cpp:210-211 | spaces, a sign, all the digits there are and anything behind them: the number they spell if it fits an `int`, an exception without digits |
| Loads.NodesExactly | sercli/src/manager.cpp:213-218 | exactly the names in the archive are filed, the key from the first of a name, the node from the last |
| Loads.NetworksExactly | sercli/src/manager.cpp:223-241 | likewise for networks, associated with exactly the nodes listed behind the last of the name |
| Loads.LoadExactly | sercli/src/manager.cpp:203-248 | loading succeeds exactly on a count and as many nodes, a count and as many networks each followed by nodes known by then, and files exactly those |
| Archive.NodesLoaded | sercli/src/manager.cpp:213-218 | the saved nodes read back, each filed under the name in its description |
| Archive.FiledNames | sercli/src/manager.cpp:213-218 | exactly the names borne are filed, each with the description and user of a node that bears it |
| Archive.RelatedLoaded | sercli/src/manager.cpp:231-240 | the related nodes read back if and only if all of them are known |
| Archive.NetworksLoaded | sercli/src/manager.cpp:224-241 | the saved networks read back if and only if all their nodes are known |
| Archive.SaveLoad | sercli/src/manager.cpp:167-248 | loading what was saved succeeds if and only if both counts fit an `int` and every associated name is the name of some node, renamed or not; it restores networks, associations and nodes, and all the nodes if and only if their names are distinct |
| Archive.SaveLoadKeyed | sercli/src/manager.cpp:167-248 | with no node renamed: it succeeds if and only if the counts fit and every associated node name is in `nodes_map`, and restores the same nodes, users, networks and associations |
| Archive.SameAfterReload | sercli/src/manager.cpp:167-248 | and it restores the very same store if and only if no key was out of date |
| Archive.RemovedNodeReloads | sercli/src/manager.cpp:78-100 | after a node is removed, what is saved can be loaded if and only if no network was associated with its name or another node bears it |
| Archive.RemovedNodeIsMissed | sercli/src/manager.cpp:78-87 | an archive that loads, and does not once its only node was removed |
| Archive.LoadedStoresReload | sercli/src/manager.cpp:203-248 | whatever was loaded can be saved and loaded again |
| Networks.Network.AssociateNode | sercli/src/network.cpp:10-12 | inserts under the node's name, an association already there stays |
| Networks.Network.DetachNode | sercli/src/network.cpp:14-16 | erases by name |
| Networks.Network.IsActive | sercli/src/network.cpp:35-49 | the loop drops exactly the expired associations and says whether a remaining node is active |
| Managers.Manager.CreateNodeOfDefault | sercli/src/manager.cpp:26-36 | the same for a node created without a user |
| Managers.Manager.CreateNode | sercli/src/manager.cpp:38-49 | refused exactly when the name is taken; otherwise a new node under its name |
| Managers.Manager.GetNode | sercli/src/manager.cpp:62-68 | the search by name finds the node filed under it, if any |
| Managers.Manager.RemoveNode | sercli/src/manager.cpp:78-100 | erases by name, or reports that there was none |
| Managers.Manager.CreateNetwork | sercli/src/manager.cpp:102-113 | refused exactly when the name is taken; otherwise a new network without associations |
| Managers.Manager.RemoveNetwork | sercli/src/manager.cpp:141-161 | erases by name, or reports that there was none |
| Managers.Manager.Clear | sercli/src/manager.cpp:255-260 | every node is disconnected and both maps are empty |
| Managers.Manager.SnapshotKeyed | sercli/src/network.cpp:10-20 | networks cannot be renamed and associations are filed by name |
| Managers.Manager.SaveState | sercli/src/manager.cpp:167-196 | the loops write the archive of the present state, in some order of its maps |
| Managers.Manager.ReadNodes | sercli/src/manager.cpp:213-218 | the loop over the nodes |
| Managers.Manager.AssociateAll | sercli/src/manager.cpp:231-240 | the loop over related nodes stops at the first that is unknown, the earlier ones associated with the very objects in `nodes_map` |
| Managers.Manager.ReadNetworks | sercli/src/manager.cpp:224-241 | the loop over the networks |
| Managers.Manager.LoadState | sercli/src/manager.cpp:203-248 | does what loading does on any tokens, and even on failure every association points to the very node in `nodes_map` |

## Left out

- The protobuf library is not part of the repository: varints, tags, lengths and unknown fields follow the Protocol Buffers "Encoding" document. Recursion limits and UTF-8 checks are not modelled.
- CodedStream.CodedInputStream.SkipField: refuses a start-group tag, where the library would store a well-formed group in the unknown fields, because no message of the protocol has groups.
- CodedStream.ParsedMessage.ReadMessage: refuses a sub-message whose length runs past the enclosing limit, as the encoding demands; the library clips the length to that limit, so that it accepts some truncated messages, and the merge law of `Codec.ParseConcat` does not hold of the library on them.
- Sizes of 2^31 bytes and more, where the `int` arithmetic of `ByteSize` overflows.
- Messages being parsed own their nested messages as values; aliasing between nested message objects is only modelled where they are sized and written.
- Framing.ChunkedReplies: assumes no chunk crosses a reply boundary, because the code needs it; `Framing.Overrun` says what happens otherwise.
- `requestparser.cpp` of the tracker, which drops a partial body between reads.
- Sockets, TLS, strands, timers and both servers: only the completion events they end in are modelled.
- TrackerRuns.RunOwnersInvited: takes one request as atomic, although nothing in the code keeps two requests from interleaving between their statements; a network deleted and created anew between the two statements of a CREATE_NETWORK is outside the model, as is every other interleaving.
- SQL: blank padding of `char(n)` and its trimming; rows come in ascending key order; one sequence serves the keys of all tables; a failed call is one that changed nothing. `isUser`, `removeUser` by id and `deleteInvitation`, which no handler calls.
- Sessions.SessionControler.CleanSome: the key read through the erased iterator is taken to be the erased one, because reading it is undefined.
- `ProtoNetwork` and `NetworkDescription` members that are never set are parameters.
- Passwords, hashing, signing and key stores are uninterpreted; `Node`'s keys and certificates are texts, and whether they decode is a parameter. `asyncUpdateServer` is not modelled.
- TwoParty.RunIdentity: operations of one `Node` do not overlap, because the class is not synchronised; cookies of different users are distinct, as the random generator is meant to provide.
- Serialised entries of the archive are single tokens: the text format inside one, and the encrypted files, are not modelled.
- Managers.Manager.SaveState: maps are walked in any order, of which the ascending one of `std::map` is one; errors of the sink are not modelled.
- `getNetwork`, `getAllNodes` and `getAllNetworks`, and lookup by description, which only repeat the lookup by name.
- `sercli/src/server.cpp`, logging, command-line contexts, reflection, `Swap` and `New`.
