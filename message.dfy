/**
 * The wire codec (src/message.ts): the two kinds of message, writing a message for a
 * connection, and reading an inbound frame.
 */
module Codec {
  import opened Wrappers
  import opened Strings
  import Chat
  import Control

  /** How a connection encodes its frames (`ConnectionMode`). */
  datatype Mode = Plaintext | Json

  /** `Message`: exactly one of a chat and a control message. */
  datatype Message = ChatMsg(chat: Chat.ChatMessage) | ControlMsg(ctrl: Control.ControlMessage)

  /** What `deserialize_message` throws for a JSON-mode connection. */
  const JsonNotImplemented := "json support has not yet been implemented (sorrrrryyyy)"

  /**
   * `serialize_message(msg, mode, id)`: the payload's own serialization for that connection.
   * Only the plaintext encoding is modelled; every connection is created plaintext and no
   * code changes its mode.
   */
  function SerializeMessage(msg: Message, mode: Mode, connectionId: nat): (s: string)
    requires mode == Plaintext
    ensures msg.ControlMsg? ==> |s| >= 2 && s[0] == Control.ServerCtrlChar && s[1] == ' '
    ensures msg.ChatMsg? ==> |s| >= |msg.chat.payload| && s[|s| - |msg.chat.payload|..] == msg.chat.payload
  {
    match msg
    case ChatMsg(c) =>
      Chat.SerializeLayout(c, connectionId);
      Chat.Serialize(c, connectionId)
    case ControlMsg(c) =>
      Control.SerializeShape(c, connectionId);
      Control.Serialize(c, connectionId)
  }

  /** `parts[i] ?? ""`: the i-th field, or the empty text when there are fewer fields. */
  function Field(parts: seq<string>, i: nat): string {
    if i < |parts| then parts[i] else ""
  }

  /** `str.startsWith(SERVER_CTRL_CHAR)`. */
  predicate IsControlText(str: string) {
    |str| > 0 && str[0] == Control.ServerCtrlChar
  }

  /**
   * `deserialize_message(mode, str, secure, author)`. In plaintext mode, a text starting with
   * the sigil is a control message whose verb is the second single-space field and whose
   * parameters are the third field split on commas; any other text is a chat carrying the
   * whole text. JSON mode throws.
   */
  function Deserialize(mode: Mode, str: string, secure: bool, author: string): (r: Result<Message, string>)
    ensures r.Failure? <==> mode == Json
    ensures r.Failure? ==> r.error == JsonNotImplemented
    ensures r.Success? ==> (r.value.ControlMsg? <==> IsControlText(str))
    ensures r.Success? && r.value.ChatMsg? ==>
      r.value.chat.payload == str && r.value.chat.author == author && r.value.chat.secure == secure
    ensures r.Success? && r.value.ControlMsg? ==>
      var c := r.value.ctrl;
      && c.author == Some(author) && c.secure == secure && c.idempotency == None
      && ' ' !in c.control
      && |c.params| >= 1
      && (forall i :: 0 <= i < |c.params| ==> ',' !in c.params[i] && ' ' !in c.params[i])
  {
    match mode
    case Plaintext =>
      if IsControlText(str) then
        var parts := Split(str, ' ');
        var cmd := Field(parts, 1);
        var params := Split(Field(parts, 2), ',');
        ParamsWithoutSpace(Field(parts, 2), params);
        Success(ControlMsg(Control.New(secure, cmd, params, Some(author))))
      else
        Success(ChatMsg(Chat.New(secure, str, author)))
    case Json =>
      Failure(JsonNotImplemented)
  }

  lemma ParamsWithoutSpace(field: string, params: seq<string>)
    requires ' ' !in field && params == Split(field, ',')
    ensures forall i :: 0 <= i < |params| ==> ' ' !in params[i]
  {
    JoinSplit(field, ',');
    forall i | 0 <= i < |params| ensures ' ' !in params[i] {
      if ' ' in params[i] {
        JoinHoldsParts(params, ',', i);
      }
    }
  }

  /** Every part of a join is a piece of the joined text. */
  lemma {:induction false} JoinHoldsParts(parts: seq<string>, sep: char, i: nat)
    requires i < |parts|
    ensures forall c :: c in parts[i] ==> c in Join(parts, sep)
    decreases |parts|
  {
    if |parts| > 1 && i > 0 {
      JoinHoldsParts(parts[1..], sep, i - 1);
    }
  }

  /**
   * The fields of a control text, rejoined with commas, give back the third space-field:
   * the parameter split loses nothing.
   */
  lemma DeserializeKeepsParamsField(str: string, secure: bool, author: string)
    requires IsControlText(str)
    ensures var r := Deserialize(Plaintext, str, secure, author);
      && r.Success? && r.value.ControlMsg?
      && r.value.ctrl.control == Field(Split(str, ' '), 1)
      && Join(r.value.ctrl.params, ',') == Field(Split(str, ' '), 2)
  {
    JoinSplit(Field(Split(str, ' '), 2), ',');
  }

  /**
   * Round trip of the inbound control syntax: a verb without spaces and at least one
   * parameter, none holding a space or a comma, written as `"@ <verb> <p1,p2,...>"`, reads
   * back as exactly that verb and those parameters.
   */
  lemma DeserializeControlRoundTrip(verb: string, params: seq<string>, secure: bool, author: string)
    requires ' ' !in verb
    requires |params| >= 1
    requires forall i :: 0 <= i < |params| ==> ' ' !in params[i] && ',' !in params[i]
    ensures Deserialize(Plaintext, "@ " + verb + " " + Join(params, ','), secure, author)
         == Success(ControlMsg(Control.ControlMessage(Some(author), verb, secure, params, None)))
  {
    var joined := Join(params, ',');
    JoinWithoutChar(params, ',', ' ');
    SplitControlText(verb, joined);
    SplitJoin(params, ',');
    DeserializeFields("@ " + verb + " " + joined, verb, joined, secure, author);
  }

  /** A control text whose space-fields are `@`, a verb and one more field reads field by field. */
  lemma DeserializeFields(str: string, verb: string, field: string, secure: bool, author: string)
    requires Split(str, ' ') == ["@", verb, field]
    ensures Deserialize(Plaintext, str, secure, author)
         == Success(ControlMsg(Control.ControlMessage(Some(author), verb, secure, Split(field, ','), None)))
  {
    var first := Split(str, ' ')[0];
    assert first == "@" && |first| == 1 && first[0] == '@';
    assert str != [];
    SplitStep(str, ' ');
    if str[0] != ' ' {
      assert first[0] == str[0];
    }
    assert IsControlText(str);
  }

  /** `"@ <verb> <field>"` with space-free verb and field splits into exactly those fields. */
  lemma SplitControlText(verb: string, field: string)
    requires ' ' !in verb && ' ' !in field
    ensures Split("@ " + verb + " " + field, ' ') == ["@", verb, field]
  {
    assert "@" + " " == "@ ";
    SplitFields("@", verb, field);
  }

  /** Three space-free texts joined by single spaces split into exactly those three fields. */
  lemma SplitFields(a: string, b: string, c: string)
    requires ' ' !in a && ' ' !in b && ' ' !in c
    ensures Split(a + " " + b + " " + c, ' ') == [a, b, c]
  {
    assert a + " " + b + " " + c == a + [' '] + (b + [' '] + c);
    SplitAtSeparator(a, b + [' '] + c, ' ');
    SplitAtSeparator(b, c, ' ');
    SplitWithoutSeparator(a, ' ');
    SplitWithoutSeparator(b, ' ');
    SplitWithoutSeparator(c, ' ');
  }

  /**
   * Fields after the third are ignored: appending `" " + rest` to a control text whose three
   * fields (the first being `@` and anything without a space) hold no space changes nothing
   * that is read.
   */
  lemma DeserializeDropsExtraFields(head: string, verb: string, field: string, rest: string, secure: bool, author: string)
    requires ' ' !in head && ' ' !in verb && ' ' !in field
    ensures Deserialize(Plaintext, "@" + head + " " + verb + " " + field + " " + rest, secure, author)
         == Deserialize(Plaintext, "@" + head + " " + verb + " " + field, secure, author)
  {
    var first := "@" + head;
    var long := first + " " + verb + " " + field + " " + rest;
    var short := first + " " + verb + " " + field;
    assert ' ' !in first;
    ThreeFieldsThenRest(first, verb, field, rest);
    SplitFields(first, verb, field);
    var longParts, shortParts := Split(long, ' '), Split(short, ' ');
    assert Field(longParts, 1) == Field(shortParts, 1) == verb;
    assert Field(longParts, 2) == Field(shortParts, 2) == field;
    assert IsControlText(long) && IsControlText(short);
  }

  /** The first three fields of a text are those of its first three space-free pieces. */
  lemma ThreeFieldsThenRest(a: string, b: string, c: string, rest: string)
    requires ' ' !in a && ' ' !in b && ' ' !in c
    ensures var parts := Split(a + " " + b + " " + c + " " + rest, ' ');
      |parts| >= 3 && parts[0] == a && parts[1] == b && parts[2] == c
  {
    var t := a + " " + b + " " + c + " " + rest;
    assert t == a + [' '] + (b + [' '] + (c + [' '] + rest));
    SplitAtSeparator(a, b + [' '] + (c + [' '] + rest), ' ');
    SplitAtSeparator(b, c + [' '] + rest, ' ');
    SplitAtSeparator(c, rest, ' ');
    SplitWithoutSeparator(a, ' ');
    SplitWithoutSeparator(b, ' ');
    SplitWithoutSeparator(c, ' ');
  }

  /** A second name word is dropped: `"@ setusername bob smith"` sets the name "bob". */
  lemma DeserializeSetUsernameExample(secure: bool, author: string)
    ensures Deserialize(Plaintext, "@ setusername bob smith", secure, author)
         == Success(ControlMsg(Control.ControlMessage(Some(author), "setusername", secure, ["bob"], None)))
  {
    var verb, name := "setusername", "bob";
    var short := "@ " + verb + " " + Join([name], ',');
    assert Join([name], ',') == name;
    assert "@ setusername bob smith" == "@" + "" + " " + verb + " " + name + " " + "smith";
    assert short == "@" + "" + " " + verb + " " + name;
    DeserializeDropsExtraFields("", verb, name, "smith", secure, author);
    DeserializeControlRoundTrip(verb, [name], secure, author);
  }

  /** A double space leaves the verb empty: `"@  x"` has verb "" and parameters ["x"]. */
  lemma DeserializeEmptyVerbExample(secure: bool, author: string)
    ensures var r := Deserialize(Plaintext, "@  x", secure, author);
      r.Success? && r.value.ControlMsg? && r.value.ctrl.control == "" && r.value.ctrl.params == ["x"]
  {
    DeserializeControlRoundTrip("", ["x"], secure, author);
    assert "@ " + "" + " " + Join(["x"], ',') == "@  x";
  }

  /** A bare sigil is a control message with an empty verb and the single empty parameter. */
  lemma DeserializeBareSigil(secure: bool, author: string)
    ensures Deserialize(Plaintext, "@", secure, author)
         == Success(ControlMsg(Control.ControlMessage(Some(author), "", secure, [""], None)))
  {
    SplitWithoutSeparator("@", ' ');
    SplitWithoutSeparator("", ',');
  }
}
