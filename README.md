# News bot reply decision, in Dafny

The news bot answers every activity POSTed to `/api/messages` with one
reply activity, returned directly in the HTTP response. This project models
how that reply is chosen and built (`index.js`, the handler at lines 25-75):

1. **Rule chain.** The rules are tried in order and the first whose type
   matches decides the text:
   - a `conversationUpdate` gets the greeting when `membersAdded` is present
     and some added member's `id` contains `"user"`;
   - an `event` named `newsSelected` gets a thank-you quoting `value.title`;
   - a `message` gets an echo of its `text`;
   - anything else gets no text.
2. **Envelope.** The reply always has type `"message"`. It comes `from` the bot
   (`{id:'bot', name:'News Bot', role:'bot'}`) and goes to the inbound `from`,
   or to `{id:'user'}` when there is none. It keeps the inbound `conversation`
   and answers the inbound `id` through `replyToId`.
3. **Default text.** When no rule produced a text, the reply says
   "Je suis votre assistant actualités. Comment puis-je vous aider ?".
4. **Error reply.** When reading the activity throws, the reply is
   `{type:'message', text:'❌ Désolé, …'}` with no other field. This happens
   on a `newsSelected` event without `value`, or when the scan of
   `membersAdded` reaches a member without `id`.

Files:
- `activity.dfy` (module `Activity`) holds the inbound and outbound JSON shapes.
  A field JSON may omit, or set to `null`, is an `Option`. The JSON `type`
  field is called `kind`, because `type` is a Dafny keyword.
- `js_string.dfy` (module `JsString`) holds `String.prototype.includes`
  (`Includes`) and its reference definition as a substring (`Occurs`).
- `messages_handler.dfy` (module `MessagesHandler`) holds the texts, the
  `membersAdded.some(...)` scan, the rule chain (`ResponseText`) and the
  reply (`Respond`). The clock value `new Date().toISOString()` is the
  parameter `now`.
- `reply_properties.dfy` (module `ReplyProperties`) holds the lemmas about the
  reply, case by case.

The `some` scan stops at the first member whose id contains `"user"`. A
member without `id` therefore throws only when no such member comes before
it. The model keeps this order: `SomeMemberIsUser` and the lemmas state it
exactly, and `ScanStopsAtFirstUser` shows both orders on concrete members.

This handler returns its reply directly in the POST response (index.js:64),
and the model follows that code: it always sends exactly one reply (the
default text where no rule applies, rather than no reply), returns the reply
itself rather than an acknowledgment id, echoes a `message` even when its
text is empty, and turns a malformed activity into the generic error reply
rather than a client error.

## Model

| member | source | states |
|---|---|---|
| `JsString.Includes` | index.js:35 | `s.includes(sub)` is true exactly when `sub` occurs in `s` at some position (the empty string occurs everywhere) |
| `JsString.OccursInTemplate` | index.js:41 | a string spliced into a template literal occurs in the result |
| `MessagesHandler.SomeMemberIsUser` | index.js:35 | the in-order scan of `membersAdded` gives true exactly when it reaches a member whose id contains "user" while all earlier members have ids; false exactly when every member has an id and none is the user; it throws (member without id) exactly when it reaches a member without id first |
| `MessagesHandler.ResponseText` | index.js:30-46 | the rule chain gives no text exactly for a `conversationUpdate` without members or whose members all have ids and none is the user, or a type no rule handles; the greeting exactly when the scan of `membersAdded` reaches a user; throws the missing-value error exactly for a `newsSelected` event without `value` and the member-without-id error exactly when the scan reaches a member without id first; the thank-you template (`ThankYou`, index.js:41) around `value.title` for a `newsSelected` event with a value; the echo template (`Echo`, index.js:45) around the text for a `message` |
| `MessagesHandler.Respond` | index.js:28-71 | the reply always has type "message" and a non-empty text; it is the error reply (`ErrorReply`, index.js:68-71) exactly when the rule chain throws; otherwise it carries the timestamp, the bot as `from`, the inbound conversation, the inbound sender (or the anonymous user) as recipient, the inbound id as `replyToId`, and the rule's text or the default text when the rule gave none |
| `ReplyProperties.TextsDistinct` | index.js:33-59 | the greeting, default, error, thank-you and echo texts are pairwise different whatever title or text is spliced in, so each text identifies the rule that chose it |
| `ReplyProperties.ReplyEnvelope` | index.js:49-71 | every reply is either the error reply or a normal reply from the bot to the sender, and never both |
| `ReplyProperties.ErrorReplyShape` | index.js:68-71 | the error reply has type "message" and the apology text, and no `from`, `recipient`, `replyToId`, `timestamp` or `conversation` |
| `ReplyProperties.GreetingExactly` | index.js:33-36 | the reply text is the greeting if and only if the type is `conversationUpdate`, `membersAdded` is present and the scan reaches a member whose id contains "user"; such a reply is a normal reply |
| `ReplyProperties.ConversationUpdateReply` | index.js:33-59 | for a `conversationUpdate` whose members all have ids, the reply is normal; it is the greeting when some member's id contains "user" and the default text when none does (or `membersAdded` is absent) |
| `ReplyProperties.NewsSelectedReply` | index.js:39-41 | a `newsSelected` event without `value` gets the error reply; with `value` it gets a normal reply whose text is the thank-you template and contains `value.title` |
| `ReplyProperties.OtherEventReply` | index.js:39-59 | an `event` with any other name gets a normal reply with the default text, which is not the echo of its text |
| `ReplyProperties.MessageReply` | index.js:43-45 | a `message` gets a normal reply whose text is the echo template and contains the inbound text verbatim |
| `ReplyProperties.UnrecognisedKindReply` | index.js:33-59 | an activity whose type is none of the three (or absent) gets a normal reply with the default text |
| `ReplyProperties.DefaultExactly` | index.js:33-59 | the reply text is the default text if and only if the activity is a `conversationUpdate` whose members (if any) all have ids and none is the user, or its type matches no rule |
| `ReplyProperties.ErrorExactly` | index.js:28-71 | the reply is the error reply if and only if it is a `newsSelected` event without `value`, or a `conversationUpdate` whose scan reaches a member without id before any user |
| `ReplyProperties.ScanStopsAtFirstUser` | index.js:35 | members `bot`, `user1`, then one without id get the greeting sent to the anonymous user; a member without id before `user1` gets the error reply |

## Left out

- The restify server, body and query parsers, CORS middleware and OPTIONS route (index.js:2-22): transport plumbing.
- The health routes `GET /` and `GET /api/health` (index.js:78-95): static JSON plus a clock value.
- `server.listen` and the `PORT` environment read (index.js:97-102): process lifecycle.
- All `console.log` / `console.error` calls: output only.
- `res.json` and `next()` (index.js:64, 68, 74): the model gives the value that would be sent.
- The clock: the timestamp is the parameter `now`, an opaque string.
- The log line before the `try` (index.js:26) reads `req.body.type` outside the catch; a missing body is left to the framework and not modelled.
- JavaScript stringification: the message `text` and `value.title` are taken to be strings that are present; JavaScript would splice `"undefined"` into the template for a missing one.
- Loose typing: member ids are strings or absent, `membersAdded` is a list, `from` and `conversation` are objects or absent. An added member that is `null` throws just like one without `id`, so both are `Member(None)`. A member id that has no string-like `includes` method (a number, an object; an array has one and behaves differently) and a non-array `membersAdded` are not modelled.
- Copied objects are cut down: the handler copies `from` and `conversation` whole (index.js:57-58), while the model keeps a `Participant` with only `id`, `name` and `role` (each optional) and a `ConversationRef` with only an optional `id`. Other fields of these objects are not represented; since they are only copied, no modelled property depends on them.
- `null` versus `undefined`: an inbound `conversation: null` or `id: null` is copied and sent as a present `null` (`conversation: null`, `replyToId: null`), whereas the model's `None` stands for an omitted field. The reply therefore does not distinguish a `null` from an absent inbound `conversation` or `id`.
- JavaScript truthiness of `from` is reduced to present or absent; a falsy non-object `from` (`""`, `0`) is not modelled.
- Strings are sequences of Unicode code points rather than UTF-16 units; the only substring searched for is the ASCII `"user"`.
- An activity store, watermark polling, topic state or acknowledgment ids: this handler returns the reply directly, so none of them is modelled.
