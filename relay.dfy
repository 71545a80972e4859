/**
 * The relay: the registry of live connections the server keeps (`Server.connections` and
 * `Server.usernames`, src/server.ts), `Connection.init_connection` with its message and close
 * handlers, `Connection.send` (src/connection.ts), the broadcasts (src/server.ts) and
 * `ControlMessage.run` (src/controlMessage.ts).
 *
 * Each event is first given as a function from the registry before it to the registry after it
 * (`AfterAccept`, `AfterMessage`, `AfterClose`, ...); the lemmas state what those functions
 * promise, and the methods of the class `Server` at the end are proved to perform them.
 */
module Relay {
  import opened Wrappers
  import opened Strings
  import Chat
  import Control
  import opened Codec

  /** The author the server writes on the notices it sends itself. */
  const ServerAuthor := "[SERVER]"

  /** What `run` throws for a `setusername` whose new name trims to nothing. */
  const EmptyUsernameError := "username must be at least one character"
  /** What `run` throws for a verb it does not know. */
  const InvalidControlError := "invalid control"
  /**
   * The text of the TypeError the engine raises when `setusername` has no first parameter
   * (`undefined.trim()`); its wording belongs to the JavaScript engine and is left open.
   */
  const MissingParamError: string

  /**
   * One connection as the server sees it: its id, whether it came in over TLS, its framing
   * mode, the name it chose, and every frame sent to it so far (the socket, in order).
   */
  datatype Connection = Connection(id: nat, secure: bool, mode: Mode, username: Option<string>, outbox: seq<string>)

  /** `username ?? "unknown(<id>)"`: the name a connection is shown under. */
  function DisplayName(c: Connection): string {
    c.username.GetOr(Control.Placeholder(c.id))
  }

  /**
   * The server's state: the two maps keyed by connection id and the id the next accepted
   * connection receives (the static `Connection.next_connection_id`).
   */
  datatype Registry = Registry(connections: map<nat, Connection>, usernames: map<nat, string>, nextId: nat)

  /** Every registered connection is in plaintext mode, the only mode any code sets. */
  predicate AllPlaintext(conns: map<nat, Connection>) {
    forall k :: k in conns ==> conns[k].mode == Plaintext
  }

  /**
   * The registry invariant: both maps have the same ids, every id is below the counter, and
   * each connection is stored under its own id, in plaintext mode.
   */
  predicate Inv(r: Registry) {
    && r.connections.Keys == r.usernames.Keys
    && (forall k :: k in r.connections ==> k < r.nextId && r.connections[k].id == k)
    && AllPlaintext(r.connections)
  }

  /** A control message the server sends on its own behalf (author `[SERVER]`). */
  function ServerNotice(secure: bool, verb: string, params: seq<string>): Message {
    ControlMsg(Control.New(secure, verb, params, Some(ServerAuthor)))
  }

  /** The plaintext text of a server notice: `"@ [SERVER] <verb> <p1,p2,...>"`, on any connection. */
  lemma ServerNoticeText(secure: bool, verb: string, params: seq<string>, id: nat)
    ensures SerializeMessage(ServerNotice(secure, verb, params), Plaintext, id)
         == "@ [SERVER] " + verb + " " + Join(params, ',')
  {
  }

  // ---------------------------------------------------------------------------
  // send and the broadcasts
  // ---------------------------------------------------------------------------

  /** `connection.send(msg)`: the frame encoded with this connection's mode and id. */
  function Deliver(c: Connection, msg: Message): Connection
    requires c.mode == Plaintext
  {
    c.(outbox := c.outbox + [SerializeMessage(msg, c.mode, c.id)])
  }

  /** Whether a broadcast that skips `excluded` (if any) sends to `c`; the test is on `c.id`. */
  predicate Receives(c: Connection, excluded: Option<nat>) {
    excluded.None? || c.id != excluded.value
  }

  /** Every connection that receives the broadcast gets the message once; the others nothing. */
  function Fanout(conns: map<nat, Connection>, msg: Message, excluded: Option<nat>): (m: map<nat, Connection>)
    requires AllPlaintext(conns)
    ensures m.Keys == conns.Keys
    ensures forall k :: k in m ==> m[k].id == conns[k].id && m[k].mode == Plaintext
  {
    map k | k in conns :: if Receives(conns[k], excluded) then Deliver(conns[k], msg) else conns[k]
  }

  /** `send` on the connection registered under `id`. */
  function AfterSend(r: Registry, id: nat, msg: Message): Registry
    requires AllPlaintext(r.connections) && id in r.connections
  {
    r.(connections := r.connections[id := Deliver(r.connections[id], msg)])
  }

  /** `broadcast(msg)`. */
  function AfterBroadcast(r: Registry, msg: Message): Registry
    requires AllPlaintext(r.connections)
  {
    r.(connections := Fanout(r.connections, msg, None))
  }

  /** `broadcast_except(msg, excluded)`. */
  function AfterBroadcastExcept(r: Registry, msg: Message, excluded: nat): Registry
    requires AllPlaintext(r.connections)
  {
    r.(connections := Fanout(r.connections, msg, Some(excluded)))
  }

  lemma FanoutKeepsInv(r: Registry, msg: Message, excluded: Option<nat>)
    requires Inv(r)
    ensures Inv(r.(connections := Fanout(r.connections, msg, excluded)))
  {
  }

  /**
   * `send` appends the frame `serialize_message(msg, mode, id)` to the outbox of that one
   * connection and changes nothing else.
   */
  lemma SendAppendsOne(r: Registry, id: nat, msg: Message)
    requires Inv(r) && id in r.connections
    ensures var r' := AfterSend(r, id, msg);
      && Inv(r')
      && r'.connections.Keys == r.connections.Keys && r'.usernames == r.usernames && r'.nextId == r.nextId
      && r'.connections[id].outbox == r.connections[id].outbox + [SerializeMessage(msg, Plaintext, id)]
      && r'.connections[id] == r.connections[id].(outbox := r'.connections[id].outbox)
      && (forall k :: k in r.connections && k != id ==> r'.connections[k] == r.connections[k])
  {
  }

  /**
   * `broadcast` gives every registered connection the message exactly once, encoded for that
   * connection, and changes no key, name or counter.
   */
  lemma BroadcastReachesAll(r: Registry, msg: Message)
    requires Inv(r)
    ensures var r' := AfterBroadcast(r, msg);
      && Inv(r')
      && r'.connections.Keys == r.connections.Keys && r'.usernames == r.usernames && r'.nextId == r.nextId
      && forall k :: k in r.connections ==>
           && r'.connections[k].outbox == r.connections[k].outbox + [SerializeMessage(msg, Plaintext, k)]
           && r'.connections[k] == r.connections[k].(outbox := r'.connections[k].outbox)
  {
    FanoutKeepsInv(r, msg, None);
  }

  /**
   * `broadcast_except` gives the message exactly once to every registered connection other
   * than `excluded`, leaves the excluded one untouched, and changes no key, name or counter.
   */
  lemma BroadcastExceptSkipsOne(r: Registry, msg: Message, excluded: nat)
    requires Inv(r)
    ensures var r' := AfterBroadcastExcept(r, msg, excluded);
      && Inv(r')
      && r'.connections.Keys == r.connections.Keys && r'.usernames == r.usernames && r'.nextId == r.nextId
      && (forall k :: k in r.connections && k != excluded ==>
           && r'.connections[k].outbox == r.connections[k].outbox + [SerializeMessage(msg, Plaintext, k)]
           && r'.connections[k] == r.connections[k].(outbox := r'.connections[k].outbox))
      && (excluded in r.connections ==> r'.connections[excluded] == r.connections[excluded])
  {
    FanoutKeepsInv(r, msg, Some(excluded));
  }

  // ---------------------------------------------------------------------------
  // init_connection
  // ---------------------------------------------------------------------------

  /** The notice every new connection is sent: control `status` `["ready"]`. */
  function ReadyNotice(secure: bool): Message {
    ServerNotice(secure, "status", ["ready"])
  }

  /**
   * `init_connection(socket, request, secure, server)`: take the counter as the id and step
   * it, register a plaintext connection without a name under that id with the placeholder
   * name, then send it the ready notice.
   */
  function AfterAccept(r: Registry, secure: bool): Registry
    requires Inv(r)
  {
    var id := r.nextId;
    var c := Connection(id, secure, Plaintext, None, []);
    var registered := Registry(r.connections[id := c], r.usernames[id := Control.Placeholder(id)], r.nextId + 1);
    AfterSend(registered, id, ReadyNotice(secure))
  }

  /**
   * Accepting a connection gives it the id the counter held, an id no registered connection
   * has; registers it in both maps, with the placeholder name and no username, in plaintext
   * mode, with the given `secure`; sends it exactly `"@ [SERVER] status ready"`; steps the
   * counter by one; and leaves every other connection and name as it was.
   */
  lemma AcceptRegistersFresh(r: Registry, secure: bool)
    requires Inv(r)
    ensures var r', id := AfterAccept(r, secure), r.nextId;
      && Inv(r')
      && id !in r.connections && id !in r.usernames
      && r'.connections.Keys == r.connections.Keys + {id}
      && r'.usernames == r.usernames[id := Control.Placeholder(id)]
      && r'.connections[id] == Connection(id, secure, Plaintext, None, ["@ [SERVER] status ready"])
      && r'.nextId == r.nextId + 1
      && (forall k :: k in r.connections ==> r'.connections[k] == r.connections[k])
  {
    var id := r.nextId;
    ServerNoticeText(secure, "status", ["ready"], id);
    assert Join(["ready"], ',') == "ready";
    assert "@ [SERVER] " + "status" + " " + "ready" == "@ [SERVER] status ready";
  }

  // ---------------------------------------------------------------------------
  // The close handler
  // ---------------------------------------------------------------------------

  /** The notice the others get when a connection goes: control `userleave` `[name]`. */
  function LeaveNotice(c: Connection): Message {
    ServerNotice(c.secure, "userleave", [DisplayName(c)])
  }

  /**
   * The first two steps of the close handler: drop the name, then tell every connection but
   * the closing one who left.
   */
  function ClosingBroadcast(r: Registry, id: nat): Registry
    requires Inv(r) && id in r.connections
  {
    var c := r.connections[id];
    var unnamed := r.(usernames := r.usernames - {id});
    unnamed.(connections := Fanout(unnamed.connections, LeaveNotice(c), Some(c.id)))
  }

  /** The close handler: the leave broadcast, then drop the connection. */
  function AfterClose(r: Registry, id: nat): Registry
    requires Inv(r) && id in r.connections
  {
    var told := ClosingBroadcast(r, id);
    told.(connections := told.connections - {id})
  }

  /**
   * Closing removes the id from both maps, sends nothing to the connection that closed (it is
   * still registered, unchanged, when the broadcast is over), and sends every other connection
   * exactly `"@ [SERVER] userleave <name>"` with the name it was shown under; the counter does
   * not move.
   */
  lemma CloseTellsOthers(r: Registry, id: nat)
    requires Inv(r) && id in r.connections
    ensures var told := ClosingBroadcast(r, id);
      && id in told.connections && told.connections[id] == r.connections[id]
      && AfterClose(r, id) == told.(connections := told.connections - {id})
    ensures var r', name := AfterClose(r, id), DisplayName(r.connections[id]);
      && Inv(r')
      && r'.connections.Keys == r.connections.Keys - {id}
      && r'.usernames == r.usernames - {id}
      && r'.nextId == r.nextId
      && forall k :: k in r'.connections ==>
           && r'.connections[k].outbox == r.connections[k].outbox + ["@ [SERVER] userleave " + name]
           && r'.connections[k] == r.connections[k].(outbox := r'.connections[k].outbox)
  {
    var c := r.connections[id];
    assert Join([DisplayName(c)], ',') == DisplayName(c);
    forall k | k in r.connections && k != id
      ensures SerializeMessage(LeaveNotice(c), Plaintext, k) == "@ [SERVER] userleave " + DisplayName(c)
    {
      ServerNoticeText(c.secure, "userleave", [DisplayName(c)], k);
    }
  }

  // ---------------------------------------------------------------------------
  // ControlMessage.run
  // ---------------------------------------------------------------------------

  /**
   * `ctl.run(connection, server)` for the connection registered under `id`: the new registry,
   * or the text `run` throws, in which case nothing has changed.
   */
  function RunResult(r: Registry, id: nat, ctl: Control.ControlMessage): Result<Registry, string>
    requires Inv(r) && id in r.connections
  {
    var c := r.connections[id];
    if ctl.control == "setusername" then
      if |ctl.params| == 0 then Failure(MissingParamError)
      else
        var name := Trim(ctl.params[0]);
        if |name| == 0 then Failure(EmptyUsernameError)
        else Success(r.(connections := r.connections[id := c.(username := Some(name))]))
    else if ctl.control == "getonlineusers" then
      // `for...in` over `usernames.values()` visits the enumerable properties of a Map iterator,
      // and it has none: the list of names is always empty.
      Success(AfterSend(r, id, ServerNotice(c.secure, "onlineusers", [])))
    else
      Failure(InvalidControlError)
  }

  /**
   * `setusername` whose first parameter trims to nothing (only whitespace) throws the empty
   * username error; with no parameter at all it throws the engine's TypeError.
   */
  lemma RunRejectsBlankName(r: Registry, id: nat, ctl: Control.ControlMessage)
    requires Inv(r) && id in r.connections && ctl.control == "setusername"
    requires |ctl.params| == 0 || AllWhitespace(ctl.params[0])
    ensures RunResult(r, id, ctl) == Failure(if |ctl.params| == 0 then MissingParamError else EmptyUsernameError)
  {
    if |ctl.params| > 0 {
      TrimEmptyIff(ctl.params[0]);
    }
  }

  /**
   * Any other `setusername` sets that connection's username to the trimmed first parameter,
   * a name that neither starts nor ends with whitespace; it sends nothing, and it changes
   * neither the `usernames` map nor any other connection.
   */
  lemma RunSetsUsername(r: Registry, id: nat, ctl: Control.ControlMessage)
    requires Inv(r) && id in r.connections && ctl.control == "setusername"
    requires |ctl.params| > 0 && !AllWhitespace(ctl.params[0])
    ensures var res, name := RunResult(r, id, ctl), Trim(ctl.params[0]);
      && res.Success? && Inv(res.value)
      && |name| > 0 && !IsWhitespace(name[0]) && !IsWhitespace(name[|name| - 1])
      && res.value.connections.Keys == r.connections.Keys
      && res.value.connections[id] == r.connections[id].(username := Some(name))
      && res.value.usernames == r.usernames && res.value.nextId == r.nextId
      && (forall k :: k in r.connections && k != id ==> res.value.connections[k] == r.connections[k])
  {
    TrimEmptyIff(ctl.params[0]);
    TrimShape(ctl.params[0]);
  }

  /**
   * `getonlineusers` always succeeds and sends the requester alone one reply, the
   * `onlineusers` notice, which (the list being empty) is exactly `"@ [SERVER] onlineusers "`;
   * no map, name or other connection changes.
   */
  lemma RunListsUsers(r: Registry, id: nat, ctl: Control.ControlMessage)
    requires Inv(r) && id in r.connections && ctl.control == "getonlineusers"
    ensures var res := RunResult(r, id, ctl);
      && res.Success? && Inv(res.value)
      && res.value.connections.Keys == r.connections.Keys
      && res.value.usernames == r.usernames && res.value.nextId == r.nextId
      && res.value.connections[id] == r.connections[id].(outbox := r.connections[id].outbox + ["@ [SERVER] onlineusers "])
      && (forall k :: k in r.connections && k != id ==> res.value.connections[k] == r.connections[k])
  {
    var c := r.connections[id];
    SendAppendsOne(r, id, ServerNotice(c.secure, "onlineusers", []));
    ServerNoticeText(c.secure, "onlineusers", [], id);
    assert "@ [SERVER] " + "onlineusers" + " " + "" == "@ [SERVER] onlineusers ";
  }

  /** Every verb other than the two, the empty verb included, throws `invalid control`. */
  lemma RunRejectsUnknownVerb(r: Registry, id: nat, ctl: Control.ControlMessage)
    requires Inv(r) && id in r.connections
    requires ctl.control != "setusername" && ctl.control != "getonlineusers"
    ensures RunResult(r, id, ctl) == Failure(InvalidControlError)
  {
  }

  /** Whatever `run` does keeps the registry invariant, and only `setusername` fails. */
  lemma RunKeepsInv(r: Registry, id: nat, ctl: Control.ControlMessage)
    requires Inv(r) && id in r.connections
    ensures var res := RunResult(r, id, ctl);
      && (res.Success? ==> Inv(res.value) && res.value.connections.Keys == r.connections.Keys)
      && (res.Failure? <==> ctl.control != "getonlineusers"
                            && (ctl.control == "setusername" ==> |ctl.params| == 0 || AllWhitespace(ctl.params[0])))
  {
    if ctl.control == "setusername" && |ctl.params| > 0 {
      TrimEmptyIff(ctl.params[0]);
    } else if ctl.control == "getonlineusers" {
      RunListsUsers(r, id, ctl);
    }
  }

  // ---------------------------------------------------------------------------
  // handle_message and the message handler
  // ---------------------------------------------------------------------------

  /**
   * `connection.handle_message(data)`: read the frame with the connection's mode, flag and
   * shown name; relay a chat to every other connection, run a control message.
   */
  function HandleResult(r: Registry, id: nat, text: string): Result<Registry, string>
    requires Inv(r) && id in r.connections
  {
    var c := r.connections[id];
    match Deserialize(c.mode, text, c.secure, DisplayName(c))
    case Failure(e) => Failure(e)
    case Success(msg) =>
      match msg
      case ChatMsg(_) => Success(AfterBroadcastExcept(r, msg, c.id))
      case ControlMsg(ctl) => RunResult(r, id, ctl)
  }

  /** The notice sent back when handling throws: control `error` `[thrown text]`. */
  function ErrorNotice(secure: bool, error: string): Message {
    ServerNotice(secure, "error", [error])
  }

  /**
   * The message handler: `handle_message`, and if it throws, the error notice to the sender.
   */
  function AfterMessage(r: Registry, id: nat, text: string): Registry
    requires Inv(r) && id in r.connections
  {
    match HandleResult(r, id, text)
    case Success(r') => r'
    case Failure(e) => AfterSend(r, id, ErrorNotice(r.connections[id].secure, e))
  }

  /** A frame read from a registered connection always yields a control message with a parameter. */
  lemma HandledControlHasParam(r: Registry, id: nat, text: string)
    requires Inv(r) && id in r.connections
    ensures var c := r.connections[id];
      var d := Deserialize(c.mode, text, c.secure, DisplayName(c));
      d.Success? && (d.value.ControlMsg? ==> |d.value.ctrl.params| >= 1)
  {
  }

  /**
   * A chat (a frame not starting with `@`) reaches every other registered connection exactly
   * once, as `"<flag> <name> : <text>"` with the sender's flag and shown name, and never the
   * sender; no key, name or counter changes.
   */
  lemma ChatRelayedToOthers(r: Registry, id: nat, text: string)
    requires Inv(r) && id in r.connections && !IsControlText(text)
    ensures var r', c := AfterMessage(r, id, text), r.connections[id];
      var line := Chat.Flag(c.secure) + " " + DisplayName(c) + " : " + text;
      && Inv(r')
      && r'.connections.Keys == r.connections.Keys && r'.usernames == r.usernames && r'.nextId == r.nextId
      && r'.connections[id] == c
      && forall k :: k in r.connections && k != id ==>
           && r'.connections[k].outbox == r.connections[k].outbox + [line]
           && r'.connections[k] == r.connections[k].(outbox := r'.connections[k].outbox)
  {
    var c := r.connections[id];
    BroadcastExceptSkipsOne(r, ChatMsg(Chat.New(c.secure, text, DisplayName(c))), id);
  }

  /**
   * When handling throws, the sender alone gets exactly one frame,
   * `"@ [SERVER] error <thrown text>"`, and nothing else changes.
   */
  lemma ErrorGoesToSenderOnly(r: Registry, id: nat, text: string)
    requires Inv(r) && id in r.connections && HandleResult(r, id, text).Failure?
    ensures var r', e := AfterMessage(r, id, text), HandleResult(r, id, text).error;
      && Inv(r')
      && r'.connections.Keys == r.connections.Keys && r'.usernames == r.usernames && r'.nextId == r.nextId
      && r'.connections[id] == r.connections[id].(outbox := r.connections[id].outbox + ["@ [SERVER] error " + e])
      && (forall k :: k in r.connections && k != id ==> r'.connections[k] == r.connections[k])
  {
    var c, e := r.connections[id], HandleResult(r, id, text).error;
    SendAppendsOne(r, id, ErrorNotice(c.secure, e));
    ServerNoticeText(c.secure, "error", [e], id);
    assert Join([e], ',') == e;
    assert "@ [SERVER] " + "error" + " " + e == "@ [SERVER] error " + e;
  }

  /**
   * A name made only of blanks is refused: after `"@ setusername \t"` the sender is told why
   * and keeps its name.
   */
  lemma BlankUsernameReported(r: Registry, id: nat)
    requires Inv(r) && id in r.connections
    ensures var r' := AfterMessage(r, id, "@ setusername \t");
      id in r'.connections && r'.connections[id] == r.connections[id].(outbox := r.connections[id].outbox
                                               + ["@ [SERVER] error " + EmptyUsernameError])
  {
    var text := "@ setusername \t";
    BlankUsernameFails(r, id);
    ErrorGoesToSenderOnly(r, id, text);
  }

  lemma BlankUsernameFails(r: Registry, id: nat)
    requires Inv(r) && id in r.connections
    ensures HandleResult(r, id, "@ setusername \t") == Failure(EmptyUsernameError)
  {
    var c := r.connections[id];
    var verb, text := "setusername", "@ setusername \t";
    assert Join(["\t"], ',') == "\t";
    assert text == "@ " + verb + " " + Join(["\t"], ',');
    DeserializeControlRoundTrip(verb, ["\t"], c.secure, DisplayName(c));
    var ctl := Control.ControlMessage(Some(DisplayName(c)), verb, c.secure, ["\t"], None);
    assert AllWhitespace(ctl.params[0]);
    RunRejectsBlankName(r, id, ctl);
  }

  /** Handling any frame keeps the registry invariant and registers or drops no connection. */
  lemma MessageKeepsInv(r: Registry, id: nat, text: string)
    requires Inv(r) && id in r.connections
    ensures Inv(AfterMessage(r, id, text))
    ensures AfterMessage(r, id, text).connections.Keys == r.connections.Keys
    ensures AfterMessage(r, id, text).usernames == r.usernames
  {
    var c := r.connections[id];
    match Deserialize(c.mode, text, c.secure, DisplayName(c))
    case Failure(e) =>
      ErrorGoesToSenderOnly(r, id, text);
    case Success(msg) =>
      match msg
      case ChatMsg(_) =>
        BroadcastExceptSkipsOne(r, msg, c.id);
      case ControlMsg(ctl) =>
        RunKeepsInv(r, id, ctl);
        if RunResult(r, id, ctl).Failure? {
          ErrorGoesToSenderOnly(r, id, text);
        }
  }

  // ---------------------------------------------------------------------------
  // Runs of events
  // ---------------------------------------------------------------------------

  /** What the sockets can do: connect, deliver a frame, close. */
  datatype Event = Connect(secure: bool) | Receive(id: nat, text: string) | Disconnect(id: nat)

  /**
   * One event. An id that is not registered (never accepted, or already closed) gets no
   * events, since a closed socket emits none; the model does nothing for it.
   */
  function Step(r: Registry, e: Event): (r': Registry)
    requires Inv(r)
    ensures Inv(r') && r'.nextId == r.nextId + (if e.Connect? then 1 else 0)
  {
    match e
    case Connect(secure) =>
      AcceptRegistersFresh(r, secure);
      AfterAccept(r, secure)
    case Receive(id, text) =>
      if id in r.connections then
        MessageKeepsInv(r, id, text);
        AfterMessage(r, id, text)
      else r
    case Disconnect(id) =>
      if id in r.connections then
        CloseTellsOthers(r, id);
        AfterClose(r, id)
      else r
  }

  function Replay(r: Registry, es: seq<Event>): (r': Registry)
    requires Inv(r)
    ensures Inv(r') && r'.nextId >= r.nextId
    decreases |es|
  {
    if es == [] then r else Replay(Step(r, es[0]), es[1..])
  }

  /** The ids the `Connect` events of a run are given, in order. */
  function AssignedIds(r: Registry, es: seq<Event>): seq<nat>
    requires Inv(r)
    decreases |es|
  {
    if es == [] then []
    else (if es[0].Connect? then [r.nextId] else []) + AssignedIds(Step(r, es[0]), es[1..])
  }

  /** How many `Connect` events a run holds. */
  function Connects(es: seq<Event>): nat
    decreases |es|
  {
    if es == [] then 0 else (if es[0].Connect? then 1 else 0) + Connects(es[1..])
  }

  /** The values a counter starting at `start` has at the `Connect` events of a run. */
  function CounterIds(start: nat, es: seq<Event>): seq<nat>
    decreases |es|
  {
    if es == [] then []
    else if es[0].Connect? then [start] + CounterIds(start + 1, es[1..])
    else CounterIds(start, es[1..])
  }

  /** The registry hands out the counter's successive values, and the counter counts the connects. */
  lemma {:induction false} AssignedIdsFollowCounter(r: Registry, es: seq<Event>)
    requires Inv(r)
    ensures AssignedIds(r, es) == CounterIds(r.nextId, es)
    ensures Replay(r, es).nextId == r.nextId + Connects(es)
    decreases |es|
  {
    if es != [] {
      AssignedIdsFollowCounter(Step(r, es[0]), es[1..]);
    }
  }

  /** Successive counter values increase strictly and stay within the counted range. */
  lemma {:induction false} CounterIdsIncrease(start: nat, es: seq<Event>)
    ensures |CounterIds(start, es)| == Connects(es)
    ensures forall k :: 0 <= k < |CounterIds(start, es)| ==> start <= CounterIds(start, es)[k] < start + Connects(es)
    ensures forall k, l :: 0 <= k < l < |CounterIds(start, es)| ==> CounterIds(start, es)[k] < CounterIds(start, es)[l]
    decreases |es|
  {
    if es != [] {
      if es[0].Connect? {
        CounterIdsIncrease(start + 1, es[1..]);
      } else {
        CounterIdsIncrease(start, es[1..]);
      }
    }
  }

  /**
   * Ids are never reused: over any run, the connections accepted receive strictly increasing
   * ids, none below the counter at the start and all below the counter at the end, so none
   * is the id of a connection registered before or during the run.
   */
  lemma IdsNeverReused(r: Registry, es: seq<Event>)
    requires Inv(r)
    ensures forall k :: 0 <= k < |AssignedIds(r, es)| ==> r.nextId <= AssignedIds(r, es)[k] < Replay(r, es).nextId
    ensures forall k, l :: 0 <= k < l < |AssignedIds(r, es)| ==> AssignedIds(r, es)[k] < AssignedIds(r, es)[l]
  {
    AssignedIdsFollowCounter(r, es);
    CounterIdsIncrease(r.nextId, es);
  }

  // ---------------------------------------------------------------------------
  // The server object
  // ---------------------------------------------------------------------------

  /**
   * The server with its two maps and the connection counter, which the handlers update in
   * place. Every method is proved to take the state to the registry its event function gives.
   */
  class Server {
    var connections: map<nat, Connection>
    var usernames: map<nat, string>
    var nextId: nat

    function State(): Registry
      reads this
    {
      Registry(connections, usernames, nextId)
    }

    ghost predicate Valid()
      reads this
    {
      Inv(State())
    }

    /** No connection yet, and the counter at 0. */
    constructor()
      ensures State() == Registry(map[], map[], 0) && Valid()
    {
      connections := map[];
      usernames := map[];
      nextId := 0;
    }

    /** `send(msg)` on the connection registered under `id`. */
    method Send(id: nat, msg: Message)
      requires AllPlaintext(connections) && id in connections
      modifies this
      ensures State() == AfterSend(old(State()), id, msg)
      ensures old(Valid()) ==> Valid()
    {
      ghost var before := State();
      var c := connections[id];
      var frame := SerializeMessage(msg, c.mode, c.id);
      connections := connections[id := c.(outbox := c.outbox + [frame])];
      if Inv(before) {
        SendAppendsOne(before, id, msg);
      }
    }

    /** `broadcast(msg)`: `send` on each registered connection in turn. */
    method Broadcast(msg: Message)
      requires Valid()
      modifies this
      ensures State() == AfterBroadcast(old(State()), msg) && Valid()
    {
      ghost var before := State();
      var pending := connections.Keys;
      while pending != {}
        invariant pending <= connections.Keys == old(connections).Keys
        invariant usernames == old(usernames) && nextId == old(nextId)
        invariant forall k :: k in connections ==>
          connections[k] == if k in pending then old(connections)[k] else Deliver(old(connections)[k], msg)
        decreases pending
      {
        var k :| k in pending;
        Send(k, msg);
        pending := pending - {k};
      }
      assert connections == Fanout(old(connections), msg, None);
      FanoutKeepsInv(before, msg, None);
    }

    /** `broadcast_except(msg, excluded)`: `send` on each connection whose id is not `excluded`. */
    method BroadcastExcept(msg: Message, excluded: nat)
      requires AllPlaintext(connections)
      modifies this
      ensures State() == AfterBroadcastExcept(old(State()), msg, excluded)
      ensures old(Valid()) ==> Valid()
    {
      ghost var before := State();
      var pending := connections.Keys;
      while pending != {}
        invariant pending <= connections.Keys == old(connections).Keys
        invariant usernames == old(usernames) && nextId == old(nextId)
        invariant forall k :: k in connections ==>
          connections[k] == if k in pending || !Receives(old(connections)[k], Some(excluded))
                            then old(connections)[k] else Deliver(old(connections)[k], msg)
        decreases pending
      {
        var k :| k in pending;
        if connections[k].id != excluded {
          Send(k, msg);
        }
        pending := pending - {k};
      }
      assert connections == Fanout(old(connections), msg, Some(excluded));
      if Inv(before) {
        FanoutKeepsInv(before, msg, Some(excluded));
      }
    }

    /** `init_connection(socket, request, secure, server)`; the new connection's id is returned. */
    method Accept(secure: bool) returns (id: nat)
      requires Valid()
      modifies this
      ensures id == old(nextId) && State() == AfterAccept(old(State()), secure) && Valid()
    {
      id := nextId;
      nextId := nextId + 1;
      connections := connections[id := Connection(id, secure, Plaintext, None, [])];
      usernames := usernames[id := Control.Placeholder(id)];
      Send(id, ReadyNotice(secure));
      AcceptRegistersFresh(old(State()), secure);
    }

    /**
     * `ctl.run(connection, server)` for the connection under `id`: the text thrown, if any, in
     * which case nothing has changed.
     */
    method Run(id: nat, ctl: Control.ControlMessage) returns (err: Option<string>)
      requires Valid() && id in connections
      modifies this
      ensures var res := RunResult(old(State()), id, ctl);
        && (res.Success? ==> err == None && State() == res.value)
        && (res.Failure? ==> err == Some(res.error) && State() == old(State()))
      ensures Valid()
    {
      RunKeepsInv(State(), id, ctl);
      var c := connections[id];
      if ctl.control == "setusername" {
        if |ctl.params| == 0 {
          return Some(MissingParamError);
        }
        var name := Trim(ctl.params[0]);
        if |name| == 0 {
          return Some(EmptyUsernameError);
        }
        connections := connections[id := c.(username := Some(name))];
        err := None;
      } else if ctl.control == "getonlineusers" {
        // The `for...in` loop over the Map iterator has no property to visit.
        var names: seq<string> := [];
        Send(id, ServerNotice(c.secure, "onlineusers", names));
        err := None;
      } else {
        err := Some(InvalidControlError);
      }
    }

    /** `handle_message(data)` for the connection under `id`: the text thrown, if any. */
    method HandleMessage(id: nat, text: string) returns (err: Option<string>)
      requires Valid() && id in connections
      modifies this
      ensures var res := HandleResult(old(State()), id, text);
        && (res.Success? ==> err == None && State() == res.value)
        && (res.Failure? ==> err == Some(res.error) && State() == old(State()))
      ensures Valid()
    {
      var c := connections[id];
      var d := Deserialize(c.mode, text, c.secure, DisplayName(c));
      match d
      case Failure(e) =>
        err := Some(e);
      case Success(msg) =>
        match msg
        case ChatMsg(_) =>
          BroadcastExcept(msg, c.id);
          err := None;
        case ControlMsg(ctl) =>
          err := Run(id, ctl);
    }

    /** The message listener: handle the frame, and send the error notice if handling threw. */
    method OnMessage(id: nat, text: string)
      requires Valid() && id in connections
      modifies this
      ensures State() == AfterMessage(old(State()), id, text) && Valid()
    {
      var err := HandleMessage(id, text);
      if err.Some? {
        Send(id, ErrorNotice(connections[id].secure, err.value));
      }
      MessageKeepsInv(old(State()), id, text);
    }

    /** The close listener: drop the name, tell the others, drop the connection. */
    method Close(id: nat)
      requires Valid() && id in connections
      modifies this
      ensures State() == AfterClose(old(State()), id) && Valid()
    {
      var c := connections[id];
      usernames := usernames - {id};
      BroadcastExcept(LeaveNotice(c), c.id);
      connections := connections - {id};
      CloseTellsOthers(old(State()), id);
    }

    /** One event from the sockets, as `Step` gives it. */
    method Dispatch(e: Event)
      requires Valid()
      modifies this
      ensures State() == Step(old(State()), e) && Valid()
    {
      match e
      case Connect(secure) =>
        var _ := Accept(secure);
      case Receive(id, text) =>
        if id in connections {
          OnMessage(id, text);
        }
      case Disconnect(id) =>
        if id in connections {
          Close(id);
        }
    }
  }
}
