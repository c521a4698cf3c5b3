/**
  The JSON objects the `/api/messages` endpoint receives and sends, as the
  handler reads them. A field the inbound JSON may leave out is an `Option`;
  `None` is JavaScript's `undefined` (and, where the handler only tests or
  dereferences the field, also `null`, which behaves the same there).
 */
module Activity {

  datatype Option<T> = None | Some(value: T)

  /** A participant descriptor (`from`, `recipient`); any of its fields may be absent. */
  datatype Participant = Participant(id: Option<string>, name: Option<string>, role: Option<string>)

  /** The `conversation` reference; the handler copies it without looking inside, so its fields are immaterial. */
  datatype ConversationRef = ConversationRef(id: Option<string>)

  /** One entry of `membersAdded`; only its `id` is read. */
  datatype Member = Member(id: Option<string>)

  /** The `value` payload of a `newsSelected` event; only its `title` is read. */
  datatype NewsItem = NewsItem(title: string)

  /** An inbound activity. `kind` is the JSON field `type`. */
  datatype Inbound = Inbound(
    kind: Option<string>,
    id: Option<string>,
    name: Option<string>,
    text: string,
    value: Option<NewsItem>,
    membersAdded: Option<seq<Member>>,
    from: Option<Participant>,
    conversation: Option<ConversationRef>)

  /**
    The JSON object sent back. `kind` is the JSON field `type`; a `None`
    field is one whose value is `undefined`, which `res.json` leaves out.
   */
  datatype Reply = Reply(
    kind: string,
    timestamp: Option<string>,
    from: Option<Participant>,
    conversation: Option<ConversationRef>,
    recipient: Option<Participant>,
    text: string,
    replyToId: Option<string>)

  /** The bot's own identity, put in `from` of every normal reply. */
  const Bot := Participant(Some("bot"), Some("News Bot"), Some("bot"))

  /** The recipient used when the inbound activity has no `from`. */
  const AnonymousUser := Participant(Some("user"), None, None)
}
