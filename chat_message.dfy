/** A chat message and its plaintext wire form (`ChatMessage`, src/chatMessage.ts). */
module Chat {

  /**
   * The markers written before a chat line for a secure and an insecure sender. src/chatMessage.ts
   * imports them from src/connection.ts, which does not define them, so the model leaves both values
   * open: nothing below depends on what they are or on their being different.
   */
  const SecureTextFlag: string
  const InsecureTextFlag: string

  /** An immutable chat message: who sent it, over which kind of link, and its text. */
  datatype ChatMessage = ChatMessage(author: string, secure: bool, payload: string)

  /** `new ChatMessage(secure, payload, author)`: note the argument order. */
  function New(secure: bool, payload: string, author: string): ChatMessage {
    ChatMessage(author, secure, payload)
  }

  function Flag(secure: bool): string {
    if secure then SecureTextFlag else InsecureTextFlag
  }

  /** The plaintext form `"<flag> <author> : <payload>"`; the connection id is not used. */
  function Serialize(m: ChatMessage, connectionId: nat): string {
    Flag(m.secure) + " " + m.author + " : " + m.payload
  }

  /**
   * The plaintext form reads, left to right, as the flag, a space, the author verbatim,
   * `" : "`, and the payload verbatim, which is what the text ends with.
   */
  lemma SerializeLayout(m: ChatMessage, connectionId: nat)
    ensures var s, f := Serialize(m, connectionId), |Flag(m.secure)|;
      && |s| == f + |m.author| + |m.payload| + 4
      && s[..f] == Flag(m.secure) && s[f] == ' '
      && s[f + 1..f + 1 + |m.author|] == m.author
      && s[f + 1 + |m.author|..f + 4 + |m.author|] == " : "
      && s[|s| - |m.payload|..] == m.payload
  {
    var s, f := Serialize(m, connectionId), |Flag(m.secure)|;
    var rest := " " + m.author + " : " + m.payload;
    assert s == Flag(m.secure) + rest;
    assert s[f..] == rest;
    assert rest[1..1 + |m.author|] == m.author;
    assert rest[1 + |m.author|..4 + |m.author|] == " : ";
  }

  /** The plaintext form does not depend on the connection it is sent on. */
  lemma SerializeIgnoresConnection(m: ChatMessage, i: nat, j: nat)
    ensures Serialize(m, i) == Serialize(m, j)
  {
  }

  /**
   * Two chats that differ only in `secure` serialize to texts that differ only in the leading
   * flag: removing each one's flag leaves the same text.
   */
  lemma SerializeSecureOnlyChangesFlag(m: ChatMessage, secure: bool, connectionId: nat)
    ensures var s, t := Serialize(m, connectionId), Serialize(m.(secure := secure), connectionId);
      s[|Flag(m.secure)|..] == t[|Flag(secure)|..]
  {
    var rest := " " + m.author + " : " + m.payload;
    assert Serialize(m, connectionId) == Flag(m.secure) + rest;
    assert Serialize(m.(secure := secure), connectionId) == Flag(secure) + rest;
  }
}
