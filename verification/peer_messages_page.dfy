/**
 * The peer chat page's message list: the reducers for the two socket
 * events, the send guard, and how a message is shown (whose it is, its
 * sender label, its text and whether it offers a delete control). The
 * socket and HTTP calls themselves are outside the model.
 */
module PeerMessagesPage {
  import opened Options
  import Text

  /** A message's `senderId`: a populated user record, a bare id, or nothing. */
  datatype Sender =
    | Populated(userId: Option<string>, username: Option<string>, fullname: Option<string>)
    | BareId(id: string)
    | NoSender

  datatype Message = Message(id: string, sender: Sender, content: string, deleted: bool, deletedBy: Option<string>)

  predicate Truthy(s: Option<string>) {
    s.Some? && s.value != ""
  }

  // ---------------------------------------------------------------------------
  // Socket events

  /** "chat message": the incoming message is added at the end. */
  function Append(msgs: seq<Message>, m: Message): (r: seq<Message>)
    ensures |r| == |msgs| + 1 && r[..|msgs|] == msgs && r[|msgs|] == m
  {
    msgs + [m]
  }

  /** "message deleted": every message with that id is marked deleted by the given user; the rest are untouched. */
  function MarkDeleted(msgs: seq<Message>, messageId: string, deletedBy: Option<string>): (r: seq<Message>)
    ensures |r| == |msgs|
    ensures forall i :: 0 <= i < |msgs| ==>
      if msgs[i].id == messageId then
        && r[i].deleted && r[i].deletedBy == deletedBy
        && r[i].id == msgs[i].id && r[i].sender == msgs[i].sender && r[i].content == msgs[i].content
      else r[i] == msgs[i]
  {
    seq(|msgs|, i requires 0 <= i < |msgs| =>
      if msgs[i].id == messageId then msgs[i].(deleted := true, deletedBy := deletedBy) else msgs[i])
  }

  /** Marking the same message twice with the same user is marking it once. */
  lemma MarkDeletedIdempotent(msgs: seq<Message>, messageId: string, deletedBy: Option<string>)
    ensures MarkDeleted(MarkDeleted(msgs, messageId, deletedBy), messageId, deletedBy)
         == MarkDeleted(msgs, messageId, deletedBy)
  {
  }

  // ---------------------------------------------------------------------------
  // Sending

  /** What `handleSend` emits: the sender and the input as typed, untrimmed. */
  datatype Outgoing = Outgoing(senderId: string, content: string)

  datatype SendResult = SendResult(emitted: Option<Outgoing>, input: string)

  /** `handleSend`: a blank input emits nothing and is kept; otherwise it is emitted and cleared. */
  function HandleSend(senderId: string, input: string): (r: SendResult)
    ensures r.emitted.None? <==> Text.AllSpace(input)
    ensures r.emitted.None? ==> r.input == input
    ensures r.emitted.Some? ==> r.emitted.value == Outgoing(senderId, input) && r.input == ""
  {
    if Text.Trim(input) == [] then SendResult(None, input)
    else SendResult(Some(Outgoing(senderId, input)), "")
  }

  /** A message that is sent always carries some non-whitespace character. */
  lemma SentContentNotBlank(senderId: string, input: string)
    requires HandleSend(senderId, input).emitted.Some?
    ensures exists i :: 0 <= i < |input| && !Text.IsJsSpace(input[i])
  {
  }

  // ---------------------------------------------------------------------------
  // Display

  /** `msg.senderId?._id || msg.senderId`: the id a message is compared by. */
  datatype SenderKey = IdKey(id: string) | RecordKey | NullKey

  function SenderKeyOf(s: Sender): (k: SenderKey)
    ensures s.Populated? && Truthy(s.userId) ==> k == IdKey(s.userId.value)
    ensures s.Populated? && !Truthy(s.userId) ==> k == RecordKey
    ensures s.BareId? ==> k == IdKey(s.id)
    ensures s.NoSender? ==> k == NullKey
  {
    match s
    case Populated(uid, _, _) => if Truthy(uid) then IdKey(uid.value) else RecordKey
    case BareId(id) => IdKey(id)
    case NoSender => NullKey
  }

  /**
   * `isMe`: the message's normalised sender id is the current user's id, so a
   * message is mine exactly when its populated or bare sender id equals my id.
   */
  function IsMine(m: Message, me: string): (mine: bool)
    ensures mine <==>
      (m.sender.Populated? && Truthy(m.sender.userId) && m.sender.userId.value == me)
      || (m.sender.BareId? && m.sender.id == me)
  {
    SenderKeyOf(m.sender) == IdKey(me)
  }

  /** The name above a message: "You" for mine, else the username, the full name, or "Unknown". */
  function SenderLabel(m: Message, me: string): (name: string)
    ensures name != []
    ensures IsMine(m, me) ==> name == "You"
    ensures !IsMine(m, me) && !m.sender.Populated? ==> name == "Unknown"
  {
    if IsMine(m, me) then "You"
    else match m.sender
      case Populated(_, username, fullname) =>
        if Truthy(username) then username.value
        else if Truthy(fullname) then fullname.value
        else "Unknown"
      case _ => "Unknown"
  }

  /** Only my messages that are not yet deleted offer the delete control. */
  function ShowsDelete(m: Message, me: string): (shows: bool)
    ensures m.deleted ==> !shows
    ensures !m.deleted ==> (shows <==>
      (m.sender.Populated? && Truthy(m.sender.userId) && m.sender.userId.value == me)
      || (m.sender.BareId? && m.sender.id == me))
  {
    IsMine(m, me) && !m.deleted
  }

  /** The text shown in the bubble. */
  function DisplayText(m: Message): (t: string)
    ensures m.deleted ==> t == "Message deleted"
    ensures !m.deleted ==> t == m.content
  {
    if m.deleted then "Message deleted" else m.content
  }

  /**
   * After a "message deleted" event, every message with that id reads
   * "Message deleted" and offers no delete control, and every other message
   * is shown as before.
   */
  lemma DeletedMessageDisplay(msgs: seq<Message>, messageId: string, deletedBy: Option<string>, me: string)
    ensures var r := MarkDeleted(msgs, messageId, deletedBy);
      forall i :: 0 <= i < |msgs| ==>
        if msgs[i].id == messageId then DisplayText(r[i]) == "Message deleted" && !ShowsDelete(r[i], me)
        else DisplayText(r[i]) == DisplayText(msgs[i]) && (ShowsDelete(r[i], me) <==> ShowsDelete(msgs[i], me))
  {
  }
}
