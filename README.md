# ws-chat-server protocol core, in Dafny

This project models the protocol core of the FRCC computer science club's WebSocket chat
relay (TypeScript). The relay accepts plain and TLS WebSocket connections, gives each one a
numeric id, relays chat lines to everyone else, answers a few control commands, and tells the
others when someone leaves.

The model has five parts:

- **Wire codec** (`Chat`, `Control`, `Codec`: `chat_message.dfy`, `control_message.dfy`,
  `message.dfy`). It covers the two message kinds and their plaintext forms,
  `"<flag> <author> : <payload>"` and `"@ <author|unknown(id)> <verb> <p1,p2,...>"`. It also
  covers the reader of inbound frames: a leading `@`, then single-space fields, then
  parameters split on commas.
- **JavaScript string primitives** (`Strings`, `strings.dfy`). These are `split` and `join`
  on one character, `trim`, and the decimal text of a number, with the round-trip lemmas the
  codec needs.
- **Log escaping** (`LogEscape`, `log_escape.dfy`). This is the `escape` helper inside
  `Server.log`: a loop over the UTF-16 code units that keeps a whitelist and writes every
  other unit as `[<decimal code>]`.
- **The relay** (`Relay`, `relay.dfy`). This covers the registry of connections, accepting a
  connection, the message handler with its error reply, the close handler, `send`, both
  broadcasts, and the control interpreter `run`.
  - Each event is a function from the registry before it to the registry after it. Lemmas
    state what those functions promise.
  - The class `Relay.Server` holds the two maps and the counter as fields. Its methods update
    them in place. Each method's postcondition says that it produces the registry its event
    function gives.
- **Option and Result** (`Wrappers`, `wrappers.dfy`).

A socket is modelled as an outbox, the sequence of frames sent on it. The static
`Connection.next_connection_id` is modelled as the registry's `nextId`.

Three behaviours of the code are modelled as written:

- `getonlineusers` builds its name list with `for (let value in server.usernames.values())`.
  A Map iterator has no enumerable properties, so the list is always empty. The reply is
  therefore always `"@ [SERVER] onlineusers "`.
- `setusername` changes the connection's `username` but not `server.usernames`. The two
  disagree after a rename.
- `SECURE_TEXT_FLAG` and `INSECURE_TEXT_FLAG` are imported from `./connection`, which does not
  define them. The model leaves both values open.

## Model

| member | source | states |
|---|---|---|
| Strings.Split | src/message.ts:21-23 | `split` on one character gives at least one piece, and no piece holds the separator |
| Strings.JoinSplit | src/message.ts:23 | joining the pieces of a split with the same separator gives back the text |
| Strings.SplitJoin | src/controlMessage.ts:33 | splitting a join of one or more separator-free parts gives back exactly those parts |
| Strings.SplitWithoutSeparator | src/message.ts:21-23 | a text without the separator splits into itself alone |
| Strings.SplitAtSeparator | src/message.ts:21 | splitting text around one separator gives the pieces of the left side followed by those of the right side |
| Strings.JoinWithoutChar | src/controlMessage.ts:33 | a join brings in no character except the separator |
| Strings.LeadingWhitespaceShape | src/controlMessage.ts:45 | the run `trim` drops at the start is all whitespace and stops at a character that is not whitespace |
| Strings.TrailingWhitespaceShape | src/controlMessage.ts:45 | the run `trim` drops at the end is all whitespace and follows a character that is not whitespace |
| Strings.TrimShape | src/controlMessage.ts:45 | `trim` returns a slice of the text whose two cut-off ends are whitespace; the slice neither starts nor ends with whitespace |
| Strings.TrimCut | src/controlMessage.ts:45 | `trim` returns the slice between the leading and trailing whitespace runs, and everything cut off is whitespace |
| Strings.TrimEnds | src/controlMessage.ts:45 | a non-empty result of `trim` neither starts nor ends with whitespace |
| Strings.TrimEmptyIff | src/controlMessage.ts:45-46 | `trim` gives the empty text exactly when the text is all whitespace |
| Strings.TrimIdempotent | src/controlMessage.ts:45 | trimming twice is trimming once |
| Strings.NatToString | src/connection.ts:67 | `${id}` is a non-empty run of decimal digits without a leading zero |
| Strings.ParseNatToString | src/connection.ts:67 | the decimal text of a number reads back as that number |
| Strings.NatToStringInjective | src/connection.ts:67 | two numbers have the same decimal text exactly when they are equal |
| Strings.DigitsBeforeTerminator | src/controlMessage.ts:33 | two digit runs followed by the same non-digit in equal texts are equal |
| Chat.SerializeLayout | src/chatMessage.ts:22-29 | the plaintext form is the flag for `secure`, a space, the author verbatim, `" : "` and the payload verbatim, which ends the text |
| Chat.SerializeIgnoresConnection | src/chatMessage.ts:20-29 | the plaintext form does not depend on the connection id |
| Chat.SerializeSecureOnlyChangesFlag | src/chatMessage.ts:24-29 | two chats differing only in `secure` give texts that agree once each one's flag is removed |
| Control.PlaceholderInjective | src/controlMessage.ts:33 | two ids have the same `unknown(<id>)` name exactly when they are equal |
| Control.SerializeShape | src/controlMessage.ts:30-33 | outbound control text starts with `@` and a space (never `&`) and ends with the parameters joined by commas |
| Control.SerializeDependsOnIdIffNoAuthor | src/controlMessage.ts:33 | two connections receive the same text exactly when the author is set or the ids are equal |
| Control.SerializeWithoutAuthor | src/controlMessage.ts:33 | with no author the text is `"@ unknown(<id>)"` followed by the verb and the parameters |
| Codec.SerializeMessage | src/message.ts:12-14 | a control message is written starting with `@` and a space; a chat is written ending with its payload |
| Codec.Deserialize | src/message.ts:16-35 | JSON mode always fails with the not-implemented text; in plaintext mode the frame is a control message exactly when it starts with `@`; a chat carries the whole text, author and flag; a control message carries the author, the flag and no idempotency key, and has a space-free verb and at least one parameter, none holding a space or comma |
| Codec.ParamsWithoutSpace | src/message.ts:21-23 | the parameters split from a space-free field hold no space |
| Codec.DeserializeKeepsParamsField | src/message.ts:21-23 | the verb is the second space-field, and the parameters rejoined by commas are the third field (or empty) |
| Codec.DeserializeFields | src/message.ts:20-26 | a frame whose space-fields are exactly `@`, a verb and one more field reads as a control message with that verb and that field split on commas |
| Codec.DeserializeControlRoundTrip | src/message.ts:20-25 | `"@ " + V + " " + join(Ps, ",")`, with V space-free and Ps non-empty and free of spaces and commas, reads back as verb V with parameters Ps |
| Codec.SplitControlText | src/message.ts:21 | `"@ V F"` with space-free V and F splits into exactly `["@", V, F]` |
| Codec.SplitFields | src/message.ts:21 | three space-free texts joined by single spaces split back into those three |
| Codec.ThreeFieldsThenRest | src/message.ts:21-23 | the first three fields of a text are its first three space-free pieces, whatever follows them |
| Codec.DeserializeDropsExtraFields | src/message.ts:21-23 | for any control text whose first field is `@` followed by anything without a space, fields after the third change nothing that is read |
| Codec.DeserializeSetUsernameExample | src/message.ts:21-23 | `"@ setusername bob smith"` reads as exactly the control message `setusername` with parameters `["bob"]`, the sender as author, the given flag and no idempotency key |
| Codec.DeserializeEmptyVerbExample | src/message.ts:21-22 | `"@  x"` reads as the empty verb with parameters `["x"]` |
| Codec.DeserializeBareSigil | src/message.ts:20-23 | a bare `@` reads as the empty verb with the single empty parameter |
| LogEscape.DecimalUnits | src/server.ts:95 | `${code}`, taken as code units, is at least one unit long, and every unit of it is whitelisted |
| LogEscape.Escape | src/server.ts:73-99 | the loop builds exactly the escape of the whole input |
| LogEscape.FlatMapAppend | src/server.ts:77-97 | a unit-by-unit rewrite of a concatenation is the concatenation of the rewrites |
| LogEscape.EscapedAppend | src/server.ts:77-97 | escaping a concatenation is concatenating the escapes |
| LogEscape.EscapedAt | src/server.ts:77-97 | every unit keeps its place: the output is the escape of what precedes it, its own escape, then the escape of what follows |
| LogEscape.EscapedUnit | src/server.ts:79-96 | a one-unit text escapes to that unit's escape |
| LogEscape.EscapeUnitReplaces | src/server.ts:79-96 | a whitelisted unit is kept unchanged; any other becomes `[`, the digits of its code, and `]` |
| LogEscape.EscapedIsWhitelisted | src/server.ts:79-96 | every unit of the output is in the whitelist |
| LogEscape.EscapedNoLineBreak | src/server.ts:79-96 | the output holds no line feed and no carriage return |
| LogEscape.EscapedIdentity | src/server.ts:79-98 | a text made only of whitelisted units is returned unchanged |
| LogEscape.EscapedIdempotent | src/server.ts:79-98 | escaping an escaped text changes nothing |
| LogEscape.EscapedLength | src/server.ts:77-98 | the output is never shorter than the input, and has the same length exactly when every unit is whitelisted |
| LogEscape.EscapedNotInjective | src/server.ts:91-96 | a double quote and the text `[34]` give the same output, so the escape cannot be undone |
| Relay.ServerNoticeText | src/controlMessage.ts:33 | a notice authored `[SERVER]` is written `"@ [SERVER] <verb> <p1,p2,...>"` on every connection |
| Relay.Fanout | src/server.ts:106-118 | a broadcast keeps every connection's id and mode and the set of registered ids |
| Relay.FanoutKeepsInv | src/server.ts:106-118 | a broadcast keeps the registry invariant |
| Relay.SendAppendsOne | src/connection.ts:105-108 | `send` appends `serialize_message(msg, mode, id)` once to that connection's outbox and changes nothing else |
| Relay.BroadcastReachesAll | src/server.ts:106-110 | `broadcast` appends the message once to every registered connection, encoded for that connection's id, and changes no key, name or counter |
| Relay.BroadcastExceptSkipsOne | src/server.ts:112-118 | `broadcast_except` appends the message once to every connection except the excluded one, leaves that one untouched, and changes no key, name or counter |
| Relay.AcceptRegistersFresh | src/connection.ts:54-98 | a new connection takes the counter's id, which no registered connection has; it is in both maps with name `unknown(<id>)`, has no username, is plaintext with the given `secure`, and has been sent exactly `"@ [SERVER] status ready"`; the counter steps by one and no other connection changes |
| Relay.CloseTellsOthers | src/connection.ts:85-93 | close removes the id from both maps and sends nothing to the closing connection, which is still registered and unchanged once the leave broadcast is over and is only then dropped; every other connection receives exactly `"@ [SERVER] userleave <name>"` once; the counter does not move |
| Relay.RunRejectsBlankName | src/controlMessage.ts:45-48 | `setusername` whose first parameter is all whitespace fails with "username must be at least one character"; with no parameter it fails with the engine's TypeError |
| Relay.RunSetsUsername | src/controlMessage.ts:45-51 | any other `setusername` sets that connection's username to the trimmed parameter, which does not start or end with whitespace; it sends nothing and changes neither `usernames` nor any other connection |
| Relay.RunListsUsers | src/controlMessage.ts:52-62 | `getonlineusers` sends the requester alone exactly `"@ [SERVER] onlineusers "` and changes no map, name or other connection |
| Relay.RunRejectsUnknownVerb | src/controlMessage.ts:63-64 | any other verb, the empty one included, fails with "invalid control" |
| Relay.RunKeepsInv | src/controlMessage.ts:42-66 | `run` keeps the invariant and the set of connections, and fails exactly for unknown verbs and blank or missing names |
| Relay.HandledControlHasParam | src/connection.ts:33 | a frame from a registered connection always reads, and a control message always has a first parameter |
| Relay.ChatRelayedToOthers | src/connection.ts:33-38 | a chat reaches every other connection once as `"<flag> <name> : <text>"`, with the sender's flag and shown name, and never reaches the sender |
| Relay.ErrorGoesToSenderOnly | src/connection.ts:69-82 | when handling throws, only the sender changes, by receiving exactly `"@ [SERVER] error <thrown text>"` |
| Relay.BlankUsernameFails | src/controlMessage.ts:45-47 | the frame `"@ setusername \t"` fails with "username must be at least one character" |
| Relay.BlankUsernameReported | src/connection.ts:69-78 | after that frame, the sender keeps their name and has received the error notice carrying that text |
| Relay.MessageKeepsInv | src/connection.ts:69-83 | handling any frame keeps the invariant, the set of connections and the `usernames` map |
| Relay.Step | src/connection.ts:54-100 | every event keeps the invariant; the counter steps by one exactly on a connect |
| Relay.Replay | src/connection.ts:54-100 | any run of events keeps the invariant and never lowers the counter |
| Relay.AssignedIdsFollowCounter | src/connection.ts:55-56 | over any run, the ids accepted connections receive are the successive counter values from the starting counter, one per connect, and the final counter is the start plus the number of connects |
| Relay.CounterIdsIncrease | src/connection.ts:55-56 | those successive counter values, one per connect, increase strictly and lie between the start and the start plus the number of connects |
| Relay.IdsNeverReused | src/connection.ts:55-56 | over any run, accepted connections receive strictly increasing ids, none below the starting counter and all below the final one |
| Relay.Server.constructor | src/server.ts:32-67 | the server starts with no connection, no name and the counter at 0, which meets the invariant |
| Relay.Server.Send | src/connection.ts:105-108 | the method performs `AfterSend`, and keeps the invariant when it held before |
| Relay.Server.Broadcast | src/server.ts:106-110 | the loop over the registered ids performs `AfterBroadcast`, keeping the invariant |
| Relay.Server.BroadcastExcept | src/server.ts:112-118 | the loop over the registered ids performs `AfterBroadcastExcept`, and keeps the invariant when it held before |
| Relay.Server.Accept | src/connection.ts:54-98 | returns the counter's old value and performs `AfterAccept`, keeping the invariant |
| Relay.Server.Run | src/controlMessage.ts:42-66 | returns the thrown text with the state untouched, or nothing with the state `RunResult` gives; the invariant holds afterwards |
| Relay.Server.HandleMessage | src/connection.ts:31-45 | returns the thrown text with the state untouched, or nothing with the state `HandleResult` gives; the invariant holds afterwards |
| Relay.Server.OnMessage | src/connection.ts:69-83 | performs `AfterMessage`, keeping the invariant |
| Relay.Server.Close | src/connection.ts:85-93 | performs `AfterClose`, keeping the invariant |
| Relay.Server.Dispatch | src/connection.ts:69-93 | performs `Step` for one socket event, keeping the invariant |

## Left out

- Transport and TLS setup are not modelled: the WebSocket and HTTPS servers, certificates, ports and listeners in the `Server` constructor. Only the two empty maps it creates are modelled.
- The log sink is not modelled: `console.log`, the log file write and the `Date.now()` timestamps. Only `escape` is modelled, as a function over UTF-16 code units.
- JSON-mode serialisation (`JSON.stringify`) is not modelled. No code sets a connection to JSON mode. The JSON-mode error of the reader is modelled.
- Codec.SerializeMessage: requires plaintext mode, because JSON-mode writing is not modelled. The registry invariant keeps every connection in plaintext mode.
- UTF-8 decoding of the inbound `Buffer` is not modelled. Frames arrive as decoded strings.
- The codec's `string` is a sequence of Unicode scalar values, while a JavaScript string is a sequence of UTF-16 code units. Nothing is lost: UTF-8 decoding never yields a lone surrogate, and the only characters the codec tests (space, comma, `@` and the whitespace set) are single code units. Only `escape` works on code units.
- Socket send failures and the empty inner `catch` around the error reply are not modelled. `send` appends to an outbox and cannot fail.
- The values of `SECURE_TEXT_FLAG` and `INSECURE_TEXT_FLAG` are not modelled. They are uninterpreted constants, and no proof relies on their being different.
- The wording of the TypeError that `undefined.trim()` raises belongs to the JavaScript engine. It is the uninterpreted constant `Relay.MissingParamError`. No frame reaches that case, because the reader always yields at least one parameter.
- A connection is modelled as a value in the server's map, not as a shared object. `setusername` replaces the map entry. The socket and the `parent_server` back-reference are not modelled.
- Broadcasts run in `Map` insertion order. The model visits the ids in an unspecified order. Every outbox belongs to one connection, so the final state is the same in either order.
- Relay.IdsNeverReused: `next_connection_id` is a JavaScript number, a double. Once it reaches 2^53, `+= 1` no longer changes it, so every later connection would get the same id and overwrite a live map entry. The model's counter is an unbounded integer, so it assumes fewer than 2^53 connects over the server's life. The same holds for Relay.AcceptRegistersFresh (the fresh id), Relay.Step (the counter steps by one) and Relay.AssignedIdsFollowCounter.
- `next_connection_id` is static, shared by every `Server` in the process. The model keeps it in the one server.
- `trim` uses the ECMAScript whitespace and line-terminator characters as a character predicate.
- Concurrency is not modelled. Events are serialized callbacks, so there is none to model.
