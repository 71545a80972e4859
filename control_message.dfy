/**
 * A control message and its plaintext wire form (`ControlMessage`, src/controlMessage.ts),
 * with the placeholder name of a connection that has not chosen one.
 */
module Control {
  import opened Wrappers
  import opened Strings

  /** The sigil that starts every control text the server writes. */
  const ServerCtrlChar: char := '@'
  /** A second sigil src/controlMessage.ts declares for user-originated control text; nothing writes it. */
  const PubCtrlChar: char := '&'

  /** An immutable control message: a verb with its ordered parameters. */
  datatype ControlMessage = ControlMessage(
    author: Option<string>,
    control: string,
    secure: bool,
    params: seq<string>,
    idempotency: Option<int>)

  /**
   * `new ControlMessage(secure, control, params, author?, idempotency?)`: every argument is
   * stored as given, and an omitted idempotency key is stored as null.
   */
  function New(secure: bool, control: string, params: seq<string>,
               author: Option<string> := None, idempotency: Option<int> := None): ControlMessage
  {
    ControlMessage(author, control, secure, params, idempotency)
  }

  /** `unknown(<id>)`: the name shown for a connection that has not set one. */
  function Placeholder(id: nat): string {
    "unknown(" + NatToString(id) + ")"
  }

  /** Different connections have different placeholder names. */
  lemma PlaceholderInjective(i: nat, j: nat)
    ensures Placeholder(i) == Placeholder(j) <==> i == j
  {
    if Placeholder(i) == Placeholder(j) {
      var p := "unknown(";
      assert Placeholder(i)[|p|..] == NatToString(i) + ")";
      assert Placeholder(j)[|p|..] == NatToString(j) + ")";
      assert NatToString(i) + [')'] + [] == NatToString(j) + [')'] + [];
      DigitsBeforeTerminator(NatToString(i), NatToString(j), ')', [], []);
      NatToStringInjective(i, j);
    }
  }

  /** The author as written on the wire: the author if set, else the connection's placeholder. */
  function DisplayAuthor(m: ControlMessage, connectionId: nat): string {
    m.author.GetOr(Placeholder(connectionId))
  }

  /** The plaintext form `"@ <author> <verb> <p1,p2,...>"`. */
  function Serialize(m: ControlMessage, connectionId: nat): string {
    [ServerCtrlChar] + " " + DisplayAuthor(m, connectionId) + " " + m.control + " " + Join(m.params, ',')
  }

  /**
   * Every control text the server writes starts with the server sigil and a space, never with
   * the public sigil, and ends with the parameters joined by commas.
   */
  lemma SerializeShape(m: ControlMessage, connectionId: nat)
    ensures var s := Serialize(m, connectionId);
      && |s| >= 4 && s[0] == ServerCtrlChar && s[1] == ' ' && s[0] != PubCtrlChar
      && s[|s| - |Join(m.params, ',')|..] == Join(m.params, ',')
  {
  }

  /**
   * The connection id shows in the text exactly when the message has no author: two
   * connections receive the same text if and only if the author is set or they are the same.
   */
  lemma SerializeDependsOnIdIffNoAuthor(m: ControlMessage, i: nat, j: nat)
    ensures Serialize(m, i) == Serialize(m, j) <==> m.author.Some? || i == j
  {
    if m.author.None? && Serialize(m, i) == Serialize(m, j) {
      var tail := " " + m.control + " " + Join(m.params, ',');
      SerializeWithoutAuthor(m, i, tail);
      SerializeWithoutAuthor(m, j, tail);
      SplicedDigits("@ unknown(", NatToString(i), NatToString(j), tail);
      NatToStringInjective(i, j);
    }
  }

  lemma SerializeWithoutAuthor(m: ControlMessage, id: nat, tail: string)
    requires m.author.None? && tail == " " + m.control + " " + Join(m.params, ',')
    ensures Serialize(m, id) == "@ unknown(" + (NatToString(id) + [')'] + tail)
  {
  }

  /** Digits spliced between a common head and `)` + a common tail are determined by the text. */
  lemma SplicedDigits(head: string, a: string, b: string, tail: string)
    requires AllDigits(a) && AllDigits(b)
    requires head + (a + [')'] + tail) == head + (b + [')'] + tail)
    ensures a == b
  {
    assert (head + (a + [')'] + tail))[|head|..] == a + [')'] + tail;
    assert (head + (b + [')'] + tail))[|head|..] == b + [')'] + tail;
    DigitsBeforeTerminator(a, b, ')', tail, tail);
  }
}
